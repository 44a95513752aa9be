/** The Apple SPI card as the emulator holds it: one object whose fields are the
    card's module-level state, updated in place by the enable/load entry points and
    by the I/O handler the bus calls on every access to the card's slot. Each
    method is proved against the value-level transition of SpiDispatch or
    SpiActivation; the properties of the card are proved about those. */
module AppleSpi {
  import opened SpiCardState
  import opened SpiDispatch
  import opened SpiActivation

  class AppleSpiCard {
    var enabled: bool     // operator intent
    var romLoaded: bool   // firmware copied into the ROM window at least once
    var slot: nat         // slot whose ROM page the card uses
    var spiData: Byte
    var spiStatus: Byte
    var spiClkDiv: Byte
    var spiSlaveSel: Byte
    var c800Bank: Byte

    /** The fields as a card value. */
    ghost function State(): Card
      reads this
    {
      Card(enabled, romLoaded, slot, Registers(spiData, spiStatus, spiClkDiv, spiSlaveSel, c800Bank))
    }

    /** Disabled, not loaded, slot 7, all registers zero. */
    constructor ()
      ensures State() == InitialCard
    {
      enabled, romLoaded, slot := false, false, DefaultSlot;
      spiData, spiStatus, spiClkDiv, spiSlaveSel, c800Bank := 0, 0, 0, 0, 0;
    }

    /** Whether the card is visible on the bus. */
    function CardIsEnabled(): (r: bool)
      reads this
      ensures r <==> Present(State())
    {
      romLoaded && enabled
    }

    /** Turns the card on or off. `window` is the host's peripheral ROM window,
        null while the memory subsystem does not have one yet. */
    method SetEnabled(enable: bool, window: array?<Byte>, firmware: Firmware)
      requires window != null ==> CoversPage(window[..], slot)
      modifies this, window
      ensures Toggled(State(), if window == null then None else Some(window[..]))
           == SetEnabledStep(old(State()), enable, if window == null then None else Some(old(window[..])), firmware)
    {
      if enabled == enable {
        return;
      }
      enabled := enable;
      if window == null {
        return;
      }
      if enabled {
        LoadRom(window, slot, firmware);
      } else {
        var base := PageBase(slot);
        forall i | base <= i < base + SlotSize {
          window[i] := 0;
        }
        SamePage(old(window[..]), window[..], slot, BlankPage());
      }
    }

    /** Copies the firmware into the page of `uSlot` and records the slot, provided
        the card is enabled and the resource is present and one page long. */
    method LoadRom(window: array<Byte>, uSlot: nat, firmware: Firmware)
      requires CoversPage(window[..], uSlot)
      modifies this, window
      ensures Loaded(State(), window[..]) == LoadRomStep(old(State()), old(window[..]), uSlot, firmware)
    {
      if !enabled {
        return;
      }
      if firmware.None? {
        return;
      }
      var image := firmware.value;
      if |image| != SlotSize {
        return;
      }
      slot := uSlot;
      var base := PageBase(uSlot);
      forall i | base <= i < base + SlotSize {
        window[i] := image[i - base];
      }
      SamePage(old(window[..]), window[..], uSlot, image);
      romLoaded := true;
    }

    /** The bus access handler: decodes the low address byte, serves the five
        registers and delegates every other offset to `ioNull`. */
    method IoEmul(pc: Word, addr: Word, bWrite: Byte, d: Byte, cyclesLeft: Cycles, ioNull: IoHandler)
      returns (r: Byte)
      modifies this
      ensures Outcome(r, State()) == Dispatch(old(State()), Access(pc, addr, bWrite, d, cyclesLeft), ioNull)
    {
      r := DeviceOk;
      var offset := addr & 0xFF;
      if !CardIsEnabled() {
        return;
      }
      if bWrite == 0 {
        if offset == DataOffset {
          r := spiData;
        } else if offset == StatusOffset {
          r := spiStatus;
        } else if offset == ClockDivOffset {
          r := spiClkDiv;
        } else if offset == SlaveSelOffset {
          r := spiSlaveSel;
        } else if offset == BankOffset {
          r := c800Bank;
        } else {
          return ioNull(pc, offset, bWrite, d, cyclesLeft);
        }
      } else {
        if offset == DataOffset {
          spiData := d;
        } else if offset == StatusOffset {
          spiStatus := d;
        } else if offset == ClockDivOffset {
          spiClkDiv := d;
        } else if offset == SlaveSelOffset {
          spiSlaveSel := d;
        } else if offset == BankOffset {
          c800Bank := d;
        } else {
          return ioNull(pc, offset, bWrite, d, cyclesLeft);
        }
      }
    }
  }

  /** A window that agrees with `before` outside the page of `slot` and holds
      `page` inside it is exactly CopyPage(before, slot, page). */
  lemma SamePage(before: seq<Byte>, after: seq<Byte>, slot: nat, page: seq<Byte>)
    requires |page| == SlotSize && CoversPage(before, slot) && |after| == |before|
    requires forall i :: 0 <= i < |before| && !InPage(i, slot) ==> after[i] == before[i]
    requires forall i :: PageBase(slot) <= i < PageBase(slot) + SlotSize ==> after[i] == page[i - PageBase(slot)]
    ensures after == CopyPage(before, slot, page)
  {
  }
}
