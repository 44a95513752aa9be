# Apple SPI card, modelled in Dafny

AppleWin's Apple SPI card is the emulation of a serial-peripheral-interface controller with pageable firmware EEPROM. It sits in an expansion slot of the emulated Apple //e. Its state is a handful of module-level variables:

- the enabled flag;
- the ROM-loaded flag;
- the slot, 7 by default;
- five byte registers: SPI data, SPI status/control, SCLK divisor, slave select and C800 bank select.

It has three entry points:

- `APLSPI_SetEnabled` turns the card on or off. Turning it on loads the firmware. Turning it off blanks the card's 256-byte page in the shared peripheral ROM window.
- `APLSPI_Load_Rom` copies the 256-byte firmware resource into the page of a slot, records the slot and sets the loaded flag.
- `APLSPI_IO_EMUL` is the bus handler. It keeps only the low byte of the address. If the card is not both enabled and loaded, it answers `0x00`. Otherwise it reads or writes the register at `0xF0`..`0xF4`, and hands any other offset to the bus's `IO_Null` fallback.

The model has four modules:

- `SpiCardState` (spi_card_state.dfy): bytes, the register file (`Registers`, `ReadRegister`, `WriteRegister`) and the card value (`Card`, `Present`).
- `SpiDispatch` (spi_dispatch.dfy): the dispatcher as a transition on card values (`Dispatch`), and runs of bus accesses (`RunAccesses`) with the properties that hold over them.
- `SpiActivation` (spi_activation.dfy): the ROM window as a byte sequence (`CopyPage`), and the load and enable transitions (`LoadRomStep`, `SetEnabledStep`) with their properties.
- `AppleSpi` (apple_spi.dfy): the class `AppleSpiCard`. Its fields are the card's variables. Its methods update them in place, as the C++ code does, and write the ROM window as an `array<bv8>`. Each method's postcondition equates the new fields, and the new window contents, with the value-level transition applied to the old ones.

Behaviour of the code worth knowing, all modelled as the code has it:

- The fallback receives the masked address (`addr & 0xFF`), not the full bus address, because the mask is applied before the fallback is called.
- A card that is not present answers `0x00` for every offset, including offsets outside `0xF0`..`0xF4`. The fallback is not consulted.
- Disabling never clears the loaded flag. So enabling a card that was loaded before, at a time when the host has no ROM window, makes it present again, even though its ROM page was blanked when it was disabled. `EnableBeforeLoadIsAbsent` states the absent case only for a card that has never been loaded.
- The slot is an unsigned integer that the code never range-checks. It is modelled as `nat`.

## Model

| member | source | states |
|---|---|---|
| SpiCardState.WriteRegister | AppleWin/source/AppleSPI.cpp:230-256 | after a write of `d` at a register offset, that register reads `d` and every other register reads as before |
| SpiCardState.RegistersDeterminedByReads | AppleWin/source/AppleSPI.cpp:110-114 | the five registers are the whole register file: two register files that read alike at `0xF0`..`0xF4` are equal |
| SpiDispatch.Offset | AppleWin/source/AppleSPI.cpp:185 | the decoded offset is the address modulo 256 |
| SpiDispatch.Dispatch | AppleWin/source/AppleSPI.cpp:182-264 | an absent card answers `0x00` and nothing changes; no access changes the flags or the slot; reads and undecoded offsets leave the card unchanged; registers other than the addressed one keep their values; a present card returns the register on a read, and on a write stores `d` and answers `0x00`; any other offset returns the fallback's byte for the masked address |
| SpiDispatch.OnlyLowByteDecoded | AppleWin/source/AppleSPI.cpp:185 | two accesses whose addresses share their low byte give the same response and the same new state |
| SpiDispatch.WriteThenRead | AppleWin/source/AppleSPI.cpp:194-256 | on a present card, a write to a register changes exactly that register, and a following read of the same offset returns the written byte |
| SpiDispatch.RunAccesses | AppleWin/source/AppleSPI.cpp:184-188 | over any sequence of bus accesses, the enabled flag, the loaded flag and the slot never change; an absent card stays unchanged and answers `0x00` to every access |
| SpiDispatch.RegisterHoldsLastWrite | AppleWin/source/AppleSPI.cpp:191-261 | on a present card, after any sequence of accesses, each register holds the last byte written to its offset, or its earlier value if none was |
| SpiActivation.CopyPage | AppleWin/source/AppleSPI.cpp:173 | copying a page over a slot leaves the window's length and every byte outside `[slot*256, slot*256+256)` unchanged, and the page holds the copied bytes |
| SpiActivation.CopyPageTwice | AppleWin/source/AppleSPI.cpp:148 | two copies over the same slot leave what the second one wrote, so blanking followed by a load is the same as the load alone |
| SpiActivation.LoadRomStep | AppleWin/source/AppleSPI.cpp:151-175 | a disabled card, a missing resource or a resource that is not 256 bytes makes the load a no-op; otherwise the slot is recorded, the page holds the firmware and the card is loaded; registers, the enabled flag and bytes outside the page never change |
| SpiActivation.LoadRomIdempotent | AppleWin/source/AppleSPI.cpp:151-175 | a second identical load leaves the state and window the first one produced |
| SpiActivation.SetEnabledStep | AppleWin/source/AppleSPI.cpp:126-149 | a request equal to the current flag changes nothing; the flag becomes the requested value; without a window only the flag changes; disabling keeps the loaded flag and blanks exactly the card's page; enabling loads into the card's current slot; registers, slot and bytes outside the page never change |
| SpiActivation.SetEnabledIdempotent | AppleWin/source/AppleSPI.cpp:128-129 | setting the same enable state twice gives the state of setting it once |
| SpiActivation.EnableBeforeLoadIsAbsent | AppleWin/source/AppleSPI.cpp:139-141 | enabling a never-loaded card without a ROM window leaves it absent: every access answers `0x00` and changes nothing |
| SpiActivation.EnableWithFirmwareIsPresent | AppleWin/source/AppleSPI.cpp:145-146 | enabling with a window and a usable firmware makes the card present, its page holds the firmware, and a register read returns the register instead of being delegated |
| SpiActivation.DisableThenEnableRestores | AppleWin/source/AppleSPI.cpp:126-175 | turning a loaded card off and on again, with a window and usable firmware, restores the same card state, and the window is as one load leaves it |
| AppleSpi.AppleSpiCard.constructor | AppleWin/source/AppleSPI.cpp:106-114 | a new card is disabled and not loaded, in slot 7, with all registers zero |
| AppleSpi.AppleSpiCard.CardIsEnabled | AppleWin/source/AppleSPI.cpp:120-123 | the card is visible exactly when it is both loaded and enabled |
| AppleSpi.AppleSpiCard.SetEnabled | AppleWin/source/AppleSPI.cpp:126-149 | the new fields and window contents are `SetEnabledStep` of the old ones, with a null window read as absent |
| AppleSpi.AppleSpiCard.LoadRom | AppleWin/source/AppleSPI.cpp:151-175 | the new fields and window contents are `LoadRomStep` of the old ones |
| AppleSpi.AppleSpiCard.IoEmul | AppleWin/source/AppleSPI.cpp:182-264 | the returned byte and the new fields are `Dispatch` of the old fields and the access |

## Left out

- `SLOT7_SetType` and `RegisterIoHandler` (AppleSPI.cpp:133, :137) are not modelled. They update the slot registry and the bus's handler table, which live in code that is not part of this model.
- `MemGetCxRomPeripheral` becomes the `window` parameter: null while the memory subsystem has none, otherwise an array that must cover the card's page. The window's real size and ownership belong to the memory subsystem.
- The resource lookup (`FindResource`, `SizeofResource`, `LoadResource`, `LockResource`) becomes a `Firmware` parameter. It is `None` when the resource is missing or cannot be loaded or locked, and its bytes otherwise. The size check is kept.
- `IO_Null` is a function parameter whose behaviour is left abstract. `pc` and `nCyclesLeft` are only passed through to it.
- `APPLE_SLOT_SIZE` is defined elsewhere. It is taken as 256, the page size the code already uses in `uSlot*256`.
- AppleSpi.AppleSpiCard.LoadRom: does not model 32-bit wrap-around of `uSlot*256`, because its precondition requires the window to hold the whole page, which rules out any slot for which the product would wrap.
- The SPI wire protocol, chip-select timing and C800 bank switching are not implemented by the code. The registers are plain storage, and so they are in the model.
- The calling convention (`__stdcall`) and threading are not modelled. Everything runs on the emulator's one thread.
