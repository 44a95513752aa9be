/** Enabling, disabling and firmware loading, as transitions on the card value and
    on the contents of the shared peripheral ROM window (one 256-byte page per slot). */
module SpiActivation {
  import opened SpiCardState
  import opened SpiDispatch

  /** First byte of a slot's page in the peripheral ROM window. */
  function PageBase(slot: nat): nat {
    slot * SlotSize
  }

  /** Does byte `i` of the window belong to the page of `slot`? */
  predicate InPage(i: int, slot: nat) {
    PageBase(slot) <= i < PageBase(slot) + SlotSize
  }

  /** The window is large enough to hold the page of `slot`. */
  predicate CoversPage(window: seq<Byte>, slot: nat) {
    PageBase(slot) + SlotSize <= |window|
  }

  /** The bytes the window holds in the page of `slot`. */
  function PageOf(window: seq<Byte>, slot: nat): seq<Byte>
    requires CoversPage(window, slot)
  {
    window[PageBase(slot)..PageBase(slot) + SlotSize]
  }

  /** A page of zero bytes, what disabling writes. */
  function BlankPage(): seq<Byte> {
    seq(SlotSize, i => 0)
  }

  /** The window after `page` is copied over the page of `slot`: the page now
      holds `page` and every byte outside it is untouched. */
  function CopyPage(window: seq<Byte>, slot: nat, page: seq<Byte>): (r: seq<Byte>)
    requires |page| == SlotSize && CoversPage(window, slot)
    ensures |r| == |window|
    ensures forall i :: 0 <= i < |window| && !InPage(i, slot) ==> r[i] == window[i]
    ensures forall i :: 0 <= i < SlotSize ==> r[PageBase(slot) + i] == page[i]
    ensures PageOf(r, slot) == page
  {
    window[..PageBase(slot)] + page + window[PageBase(slot) + SlotSize..]
  }

  /** Copying a page twice over the same slot leaves what the second copy wrote;
      in particular a repeated copy changes nothing. */
  lemma CopyPageTwice(window: seq<Byte>, slot: nat, first: seq<Byte>, second: seq<Byte>)
    requires |first| == SlotSize && |second| == SlotSize && CoversPage(window, slot)
    ensures CopyPage(CopyPage(window, slot, first), slot, second) == CopyPage(window, slot, second)
  {
  }

  /** The firmware resource as the host supplies it: None when it is missing or
      cannot be loaded or locked; its bytes otherwise. */
  type Firmware = Option<seq<Byte>>

  /** The resource is usable only when it is exactly one page long. */
  predicate FirmwareFits(firmware: Firmware) {
    firmware.Some? && |firmware.value| == SlotSize
  }

  /** Card state and window contents after a firmware load. */
  datatype Loaded = Loaded(card: Card, window: seq<Byte>)

  function LoadRomStep(c: Card, window: seq<Byte>, uSlot: nat, firmware: Firmware): (res: Loaded)
    requires CoversPage(window, uSlot)
    // a load never touches the registers or the enabled flag, nor the window outside the page
    ensures res.card.regs == c.regs && res.card.enabled == c.enabled
    ensures |res.window| == |window|
    ensures forall i :: 0 <= i < |window| && !InPage(i, uSlot) ==> res.window[i] == window[i]
    // a disabled card or an unusable resource makes the call a no-op
    ensures !(c.enabled && FirmwareFits(firmware)) ==> res == Loaded(c, window)
    // otherwise the slot is recorded, the page holds the firmware and the card is loaded
    ensures c.enabled && FirmwareFits(firmware) ==>
      res.card.slot == uSlot && res.card.romLoaded && PageOf(res.window, uSlot) == firmware.value
  {
    if !c.enabled then Loaded(c, window)
    else if !FirmwareFits(firmware) then Loaded(c, window)
    else Loaded(c.(slot := uSlot, romLoaded := true), CopyPage(window, uSlot, firmware.value))
  }

  /** Loading is idempotent: a second identical load leaves the state of the first. */
  lemma LoadRomIdempotent(c: Card, window: seq<Byte>, uSlot: nat, firmware: Firmware)
    requires CoversPage(window, uSlot)
    ensures var once := LoadRomStep(c, window, uSlot, firmware);
      LoadRomStep(once.card, once.window, uSlot, firmware) == once
  {
    if c.enabled && FirmwareFits(firmware) {
      CopyPageTwice(window, uSlot, firmware.value, firmware.value);
    }
  }

  /** Card state and window after SetEnabled; the window is None when the host
      has no peripheral ROM window yet. */
  datatype Toggled = Toggled(card: Card, window: Option<seq<Byte>>)

  function SetEnabledStep(c: Card, enable: bool, window: Option<seq<Byte>>, firmware: Firmware): (res: Toggled)
    requires window.Some? ==> CoversPage(window.value, c.slot)
    ensures res.card.enabled == enable
    // registers and the slot survive every transition
    ensures res.card.regs == c.regs && res.card.slot == c.slot
    // the window stays as present as it was, and only the card's own page may change
    ensures res.window.Some? == window.Some?
    ensures window.Some? ==> |res.window.value| == |window.value|
    ensures window.Some? ==>
      forall i :: 0 <= i < |window.value| && !InPage(i, c.slot) ==> res.window.value[i] == window.value[i]
    // no change of direction, no effect
    ensures c.enabled == enable ==> res == Toggled(c, window)
    // without a window only the enabled flag changes
    ensures window.None? ==> res.card == c.(enabled := enable)
    // disabling keeps the loaded flag and blanks the page
    ensures !enable ==> res.card.romLoaded == c.romLoaded
    ensures c.enabled && !enable && window.Some? ==> PageOf(res.window.value, c.slot) == BlankPage()
    // enabling with a window attempts the load into the card's current slot
    ensures !c.enabled && enable && window.Some? ==>
      res.card.romLoaded == (c.romLoaded || FirmwareFits(firmware)) &&
      (FirmwareFits(firmware) ==> PageOf(res.window.value, c.slot) == firmware.value) &&
      (!FirmwareFits(firmware) ==> res.window == window)
  {
    if c.enabled == enable then Toggled(c, window)
    else if window.None? then Toggled(c.(enabled := enable), None)
    else if enable then
      var loaded := LoadRomStep(c.(enabled := true), window.value, c.slot, firmware);
      Toggled(loaded.card, Some(loaded.window))
    else Toggled(c.(enabled := false), Some(CopyPage(window.value, c.slot, BlankPage())))
  }

  /** Setting the same enable state twice is the same as setting it once. */
  lemma SetEnabledIdempotent(c: Card, enable: bool, window: Option<seq<Byte>>, firmware: Firmware)
    requires window.Some? ==> CoversPage(window.value, c.slot)
    ensures var once := SetEnabledStep(c, enable, window, firmware);
      SetEnabledStep(once.card, enable, once.window, firmware) == once
  {
  }

  /** Enabling a card that was never loaded, before the host has a ROM window,
      leaves it absent: every access answers DEVICE_OK and changes nothing. */
  lemma EnableBeforeLoadIsAbsent(c: Card, firmware: Firmware, a: Access, ioNull: IoHandler)
    requires !c.romLoaded
    ensures !Present(SetEnabledStep(c, true, None, firmware).card)
    ensures Dispatch(SetEnabledStep(c, true, None, firmware).card, a, ioNull)
         == Outcome(DeviceOk, SetEnabledStep(c, true, None, firmware).card)
  {
  }

  /** Enabling a disabled card with a window and a usable firmware resource makes it
      present, with its registers as they were: a read of any register returns the
      register's last value instead of being delegated. */
  lemma EnableWithFirmwareIsPresent(c: Card, window: seq<Byte>, firmware: Firmware, a: Access, ioNull: IoHandler)
    requires !c.enabled && CoversPage(window, c.slot) && FirmwareFits(firmware)
    requires IsRead(a) && IsRegisterOffset(Offset(a.addr))
    ensures Present(SetEnabledStep(c, true, Some(window), firmware).card)
    ensures SetEnabledStep(c, true, Some(window), firmware).window == Some(CopyPage(window, c.slot, firmware.value))
    ensures Dispatch(SetEnabledStep(c, true, Some(window), firmware).card, a, ioNull).value
         == ReadRegister(c.regs, Offset(a.addr))
  {
  }

  /** Turning a loaded card off and on again with a window and a usable firmware
      resource restores it: present again, the same registers, and the window
      exactly as a single load of the firmware leaves it. */
  lemma DisableThenEnableRestores(c: Card, window: seq<Byte>, firmware: Firmware)
    requires Present(c) && CoversPage(window, c.slot) && FirmwareFits(firmware)
    ensures var off := SetEnabledStep(c, false, Some(window), firmware);
      var on := SetEnabledStep(off.card, true, off.window, firmware);
      on.card == c && on.window == Some(CopyPage(window, c.slot, firmware.value))
  {
    CopyPageTwice(window, c.slot, BlankPage(), firmware.value);
  }
}
