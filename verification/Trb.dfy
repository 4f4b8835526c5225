/** Transfer request blocks: the raw 128 bits the controller sees, and the driver's tagged view of them. */
module Trb {

  const DWORD: nat := 0x1_0000_0000

  /** Four little-endian dwords; the last one is kept as its bit 0, the cycle bit, and the bits above it. */
  datatype Raw = Raw(d0: nat, d1: nat, d2: nat, control: nat, cycle: bool) {
    function ControlDword(): nat { 2 * control + if cycle then 1 else 0 }
  }

  const LINK_TYPE: nat := 6

  /** Bit 0 of the control dword. */
  predicate CycleBit(r: Raw) { r.cycle }

  /** Bit 1 of the control dword. */
  predicate ToggleBit(r: Raw) { r.control % 2 == 1 }

  /** Bits 10 to 15 of the control dword. */
  function TrbType(r: Raw): nat { r.control / 512 % 64 }

  /** The split control word gives the bits of the 32-bit dword. */
  lemma ControlDwordBits(r: Raw)
    ensures CycleBit(r) <==> r.ControlDword() % 2 == 1
    ensures ToggleBit(r) <==> r.ControlDword() / 2 % 2 == 1
    ensures TrbType(r) == r.ControlDword() / 1024 % 64
  {
    assert r.ControlDword() / 2 == r.control;
  }

  function WithCycle(r: Raw, bit: bool): Raw { r.(cycle := bit) }

  /** A block without its cycle bit, which belongs to the ring and not to the block. */
  function Payload(r: Raw): Raw { WithCycle(r, false) }

  const ZEROED: Raw := Raw(0, 0, 0, 0, false)

  datatype XhciTrb =
    | Normal(normal: Raw)
    | Link(link: Raw)
    | Empty(cycle: bool)

  datatype XhciTrbTag = NormalTag | LinkTag | EmptyTag

  function SetCycleBit(t: XhciTrb, bit: bool): XhciTrb {
    match t
    case Normal(r) => Normal(WithCycle(r, bit))
    case Link(r) => Link(WithCycle(r, bit))
    case Empty(_) => Empty(bit)
  }

  function ToUnion(t: XhciTrb): Raw {
    match t
    case Normal(r) => r
    case Link(r) => r
    case Empty(c) => WithCycle(ZEROED, c)
  }

  function ToTag(t: XhciTrb): XhciTrbTag {
    match t
    case Normal(_) => NormalTag
    case Link(_) => LinkTag
    case Empty(_) => EmptyTag
  }

  function FromRaw(r: Raw, tag: XhciTrbTag): XhciTrb {
    match tag
    case NormalTag => Normal(r)
    case LinkTag => Link(r)
    case EmptyTag => Empty(CycleBit(r))
  }

  /** Stamping sets the cycle bit, forgets the one before, and touches nothing else. */
  lemma StampSets(r: Raw, bit: bool, other: bool)
    ensures CycleBit(WithCycle(r, bit)) == bit
    ensures WithCycle(WithCycle(r, other), bit) == WithCycle(r, bit)
    ensures TrbType(WithCycle(r, bit)) == TrbType(r) && ToggleBit(WithCycle(r, bit)) == ToggleBit(r)
    ensures CycleBit(r) == bit ==> WithCycle(r, bit) == r
  {
  }

  /** What the driver wrote is what it reads back under the tag it noted. */
  lemma TaggedRoundTrip(t: XhciTrb)
    ensures FromRaw(ToUnion(t), ToTag(t)) == t
  {
    StampSets(ZEROED, true, true);
    StampSets(ZEROED, false, true);
  }

  lemma StampedUnion(t: XhciTrb, bit: bool)
    ensures ToUnion(SetCycleBit(t, bit)) == WithCycle(ToUnion(t), bit)
    ensures CycleBit(ToUnion(SetCycleBit(t, bit))) == bit
    ensures ToTag(SetCycleBit(t, bit)) == ToTag(t)
  {
    StampSets(ToUnion(t), bit, bit);
    if t.Empty? { StampSets(ZEROED, bit, t.cycle); }
  }

  // ---------- Field by field ----------

  /** The bytes of each kind of block, and the tag that tells the kinds apart. */
  lemma UnionsAndTags(r: Raw, c: bool)
    ensures ToUnion(Normal(r)) == r && ToTag(Normal(r)) == NormalTag
    ensures ToUnion(Link(r)) == r && ToTag(Link(r)) == LinkTag
    ensures ToUnion(Empty(c)) == Raw(0, 0, 0, 0, c) && ToTag(Empty(c)) == EmptyTag
    ensures FromRaw(r, NormalTag) == Normal(r) && FromRaw(r, LinkTag) == Link(r) && FromRaw(r, EmptyTag) == Empty(r.cycle)
  {
  }

  /** Setting the cycle bit of a block leaves its parameters, its status and the rest of its control dword alone. */
  lemma StampTouchesOnlyTheCycle(t: XhciTrb, bit: bool)
    ensures var u, v := ToUnion(t), ToUnion(SetCycleBit(t, bit));
      v.d0 == u.d0 && v.d1 == u.d1 && v.d2 == u.d2 && v.control == u.control && v.cycle == bit
    ensures ToTag(SetCycleBit(t, bit)) == ToTag(t)
    ensures var u, v := ToUnion(t), ToUnion(SetCycleBit(t, bit));
      v.ControlDword() == u.ControlDword() / 2 * 2 + if bit then 1 else 0
  {
    UnionsAndTags(if t.Normal? then t.normal else if t.Link? then t.link else ZEROED, bit);
  }

  /** Two blocks agree without their cycle bits exactly when all else agrees. */
  lemma PayloadIsAllButTheCycle(r: Raw, s: Raw)
    ensures Payload(r) == Payload(s) <==> r.d0 == s.d0 && r.d1 == s.d1 && r.d2 == s.d2 && r.control == s.control
    ensures !Payload(r).cycle && Payload(r).d0 == r.d0 && Payload(r).d1 == r.d1
    ensures Payload(r).d2 == r.d2 && Payload(r).control == r.control
  {
  }
}
