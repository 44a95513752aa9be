/** The card's address-decoded I/O dispatcher, as a transition on card values,
    and what holds of it over single accesses and over whole runs of bus accesses. */
module SpiDispatch {
  import opened SpiCardState

  /** The fallback handler for offsets the card does not decode (IO_Null); its
      behaviour belongs to the bus and is left abstract. */
  type IoHandler = (Word, Word, Byte, Byte, Cycles) -> Byte

  /** One bus access: program counter, address, direction (0 reads, anything else
      writes), data byte and remaining cycle budget. */
  datatype Access = Access(pc: Word, addr: Word, bWrite: Byte, d: Byte, cyclesLeft: Cycles)

  /** The byte put on the bus and the card state afterwards. */
  datatype Outcome = Outcome(value: Byte, card: Card)

  /** Only the low byte of the bus address is decoded. */
  function Offset(addr: Word): (offset: Word)
    ensures offset == addr % 0x100
  {
    addr & 0xFF
  }

  predicate IsRead(a: Access) {
    a.bWrite == 0
  }

  /** One access through the dispatcher. */
  function Dispatch(c: Card, a: Access, ioNull: IoHandler): (res: Outcome)
    // register traffic never touches activation state or the slot
    ensures res.card.enabled == c.enabled && res.card.romLoaded == c.romLoaded && res.card.slot == c.slot
    // an absent card answers DEVICE_OK and nothing moves
    ensures !Present(c) ==> res == Outcome(DeviceOk, c)
    // reads, and offsets the card does not own, leave the card as it was
    ensures IsRead(a) || !IsRegisterOffset(Offset(a.addr)) ==> res.card == c
    // registers other than the addressed one keep their values
    ensures forall o :: IsRegisterOffset(o) && o != Offset(a.addr) ==> ReadRegister(res.card.regs, o) == ReadRegister(c.regs, o)
    // delegation forwards the masked address and returns the fallback's byte unmodified
    ensures Present(c) && !IsRegisterOffset(Offset(a.addr)) ==>
      res.value == ioNull(a.pc, Offset(a.addr), a.bWrite, a.d, a.cyclesLeft)
    // a present card serves its registers: a read returns the cell, a write stores d and answers DEVICE_OK
    ensures Present(c) && IsRegisterOffset(Offset(a.addr)) ==>
      if IsRead(a) then res.value == ReadRegister(c.regs, Offset(a.addr))
      else res.value == DeviceOk && ReadRegister(res.card.regs, Offset(a.addr)) == a.d
  {
    var offset := Offset(a.addr);
    if !Present(c) then Outcome(DeviceOk, c)
    else if !IsRegisterOffset(offset) then Outcome(ioNull(a.pc, offset, a.bWrite, a.d, a.cyclesLeft), c)
    else if IsRead(a) then Outcome(ReadRegister(c.regs, offset), c)
    else Outcome(DeviceOk, c.(regs := WriteRegister(c.regs, offset, a.d)))
  }

  /** Only the low address byte is decoded: two accesses whose addresses share
      their low byte are served identically, with the same state change. */
  lemma OnlyLowByteDecoded(c: Card, a: Access, addr: Word, ioNull: IoHandler)
    requires Offset(addr) == Offset(a.addr)
    ensures Dispatch(c, a.(addr := addr), ioNull) == Dispatch(c, a, ioNull)
  {
  }

  /** A write of `v` to a register followed by a read of the same offset, through
      any address with that low byte, returns `v`; the write changed exactly the
      addressed cell. */
  lemma WriteThenRead(c: Card, w: Access, r: Access, ioNull: IoHandler)
    requires Present(c) && IsRegisterOffset(Offset(w.addr)) && !IsRead(w)
    requires IsRead(r) && Offset(r.addr) == Offset(w.addr)
    ensures Dispatch(c, w, ioNull).card.regs == WriteRegister(c.regs, Offset(w.addr), w.d)
    ensures Dispatch(Dispatch(c, w, ioNull).card, r, ioNull).value == w.d
  {
  }

  /** The bytes returned and the final state of a run of accesses, in bus order. */
  datatype Run = Run(values: seq<Byte>, card: Card)

  function RunAccesses(c: Card, trace: seq<Access>, ioNull: IoHandler): (res: Run)
    ensures |res.values| == |trace|
    // no sequence of bus accesses enables, loads, unloads or moves the card
    ensures res.card.enabled == c.enabled && res.card.romLoaded == c.romLoaded && res.card.slot == c.slot
    // an absent card stays untouched and answers DEVICE_OK to every access
    ensures !Present(c) ==> res.card == c && forall i :: 0 <= i < |trace| ==> res.values[i] == DeviceOk
    decreases |trace|
  {
    if trace == [] then Run([], c)
    else
      var first := Dispatch(c, trace[0], ioNull);
      var rest := RunAccesses(first.card, trace[1..], ioNull);
      Run([first.value] + rest.values, rest.card)
  }

  /** Independent reference: the value last written to register `o` in `trace`,
      or `init` when no access of the trace writes it. */
  function LastWrite(trace: seq<Access>, o: Word, init: Byte): Byte
    decreases |trace|
  {
    if trace == [] then init
    else
      var a := trace[0];
      LastWrite(trace[1..], o, if !IsRead(a) && Offset(a.addr) == o then a.d else init)
  }

  /** While the card is present, after any run of accesses each register holds
      the value last written to it during the run, or its value before the run. */
  lemma {:induction false} RegisterHoldsLastWrite(c: Card, trace: seq<Access>, o: Word, ioNull: IoHandler)
    requires Present(c) && IsRegisterOffset(o)
    ensures ReadRegister(RunAccesses(c, trace, ioNull).card.regs, o) == LastWrite(trace, o, ReadRegister(c.regs, o))
    decreases |trace|
  {
    if trace != [] {
      var a := trace[0];
      var next := Dispatch(c, a, ioNull).card;
      assert ReadRegister(next.regs, o) == (if !IsRead(a) && Offset(a.addr) == o then a.d else ReadRegister(c.regs, o));
      RegisterHoldsLastWrite(next, trace[1..], o, ioNull);
    }
  }
}
