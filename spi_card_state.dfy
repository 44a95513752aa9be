/** The persistent state of the Apple SPI card: its activation flags, the slot it
    occupies and its five byte-wide hardware registers, as values. */
module SpiCardState {

  /** A BYTE of the host (register values, data bus, ROM bytes). */
  type Byte = bv8
  /** A WORD of the host (program counter, bus address). */
  type Word = bv16
  /** The ULONG cycle budget handed to I/O handlers. */
  type Cycles = bv32

  datatype Option<+T> = None | Some(value: T)

  /** Bytes per slot page of the peripheral ROM window (APPLE_SLOT_SIZE), which is
      also the size of the card's firmware image (APLSPIDRVR_SIZE). */
  const SlotSize: nat := 256
  /** Slot the card assumes before any firmware load records another one. */
  const DefaultSlot: nat := 7
  /** The neutral response of the dispatcher (DEVICE_OK). */
  const DeviceOk: Byte := 0x00

  /** Slot-relative I/O offsets of the five registers. */
  const DataOffset: Word := 0xF0       // SPI data in (read) / data out (write)
  const StatusOffset: Word := 0xF1     // SPI status (read) / control (write)
  const ClockDivOffset: Word := 0xF2   // SCLK divisor
  const SlaveSelOffset: Word := 0xF3   // slave select
  const BankOffset: Word := 0xF4       // C800 EEPROM bank select

  /** The register file; every cell is plain storage. */
  datatype Registers = Registers(
    spiData: Byte,
    spiStatus: Byte,
    spiClkDiv: Byte,
    spiSlaveSel: Byte,
    c800Bank: Byte)

  const ZeroRegisters: Registers := Registers(0, 0, 0, 0, 0)

  /** The offsets the card decodes itself; every other offset is delegated. */
  predicate IsRegisterOffset(offset: Word) {
    DataOffset <= offset <= BankOffset
  }

  /** The register a read of `offset` returns. */
  function ReadRegister(r: Registers, offset: Word): Byte
    requires IsRegisterOffset(offset)
  {
    if offset == DataOffset then r.spiData
    else if offset == StatusOffset then r.spiStatus
    else if offset == ClockDivOffset then r.spiClkDiv
    else if offset == SlaveSelOffset then r.spiSlaveSel
    else r.c800Bank
  }

  /** The register file after a write of `d` at `offset`: the addressed cell holds
      `d` verbatim and every other cell reads as before. */
  function WriteRegister(r: Registers, offset: Word, d: Byte): (r': Registers)
    requires IsRegisterOffset(offset)
    ensures ReadRegister(r', offset) == d
    ensures forall o :: IsRegisterOffset(o) && o != offset ==> ReadRegister(r', o) == ReadRegister(r, o)
  {
    if offset == DataOffset then r.(spiData := d)
    else if offset == StatusOffset then r.(spiStatus := d)
    else if offset == ClockDivOffset then r.(spiClkDiv := d)
    else if offset == SlaveSelOffset then r.(spiSlaveSel := d)
    else r.(c800Bank := d)
  }

  /** The five decoded offsets are the whole register file: two register files that
      read alike at every one of them are the same. Together with the contract of
      WriteRegister this pins a write down to exactly one cell. */
  lemma RegistersDeterminedByReads(a: Registers, b: Registers)
    requires forall o :: IsRegisterOffset(o) ==> ReadRegister(a, o) == ReadRegister(b, o)
    ensures a == b
  {
    assert ReadRegister(a, DataOffset) == ReadRegister(b, DataOffset);
    assert ReadRegister(a, StatusOffset) == ReadRegister(b, StatusOffset);
    assert ReadRegister(a, ClockDivOffset) == ReadRegister(b, ClockDivOffset);
    assert ReadRegister(a, SlaveSelOffset) == ReadRegister(b, SlaveSelOffset);
    assert ReadRegister(a, BankOffset) == ReadRegister(b, BankOffset);
  }

  /** The card state: operator intent, firmware status, slot and registers. */
  datatype Card = Card(enabled: bool, romLoaded: bool, slot: nat, regs: Registers)

  /** The state before anything has run. */
  const InitialCard: Card := Card(false, false, DefaultSlot, ZeroRegisters)

  /** The card is visible on the bus only when it is both enabled and loaded. */
  predicate Present(c: Card) {
    c.romLoaded && c.enabled
  }
}
