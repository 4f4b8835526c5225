/** The command ring as the driver keeps it: staged blocks, the blocks the controller sees, and the link. */
module CommandRing {
  import opened Trb

  const MAX_TRB_COUNT: nat := 64
  const LINK_SLOT: nat := 63

  /** The link block at the end of the ring: back to the start, toggling the controller's cycle state. */
  function LinkRaw(base: nat, cycle: bool): Raw {
    Raw(base % DWORD, base / DWORD, 0, LINK_TYPE * 512 + 1, cycle)
  }

  lemma LinkRawFields(base: nat, cycle: bool)
    ensures var r := LinkRaw(base, cycle);
      && TrbType(r) == LINK_TYPE && ToggleBit(r) && CycleBit(r) == cycle && r.d0 + r.d1 * DWORD == base
  {
  }

  datatype Producer = Producer(
    trbs: seq<Raw>, tags: seq<XhciTrbTag>, staging: seq<XhciTrb>, idx: nat, cycle: bool, base: nat)
  {
    predicate Valid() {
      |trbs| == |tags| == |staging| == MAX_TRB_COUNT && idx <= LINK_SLOT
    }
  }

  function Repeat<T>(x: T): (s: seq<T>)
    ensures |s| == MAX_TRB_COUNT && forall i :: 0 <= i < |s| ==> s[i] == x
  {
    seq(MAX_TRB_COUNT, _ => x)
  }

  function Init(base: nat): (p: Producer)
    ensures p.Valid()
  {
    Producer(
      Repeat(ZEROED)[LINK_SLOT := LinkRaw(base, true)],
      Repeat(EmptyTag),
      Repeat(Empty(false))[LINK_SLOT := Link(LinkRaw(base, true))],
      0, true, base)
  }

  /** Stages a block; the staging area keeps its last slot for the link. */
  function Add(p: Producer, t: XhciTrb): (q: Producer)
    requires p.Valid() && p.idx < LINK_SLOT
    ensures q.Valid()
  {
    p.(staging := p.staging[p.idx := SetCycleBit(t, p.cycle)], idx := p.idx + 1)
  }

  function CopySlot(p: Producer, i: nat): (q: Producer)
    requires p.Valid() && i <= p.idx
    ensures q.Valid()
  {
    p.(trbs := p.trbs[i := ToUnion(p.staging[i])], tags := p.tags[i := ToTag(p.staging[i])])
  }

  /** The first `n` staged slots copied, lowest first. */
  function CopySlots(p: Producer, n: nat): (q: Producer)
    requires p.Valid() && n <= p.idx + 1
    ensures q.Valid() && q.staging == p.staging && q.idx == p.idx && q.cycle == p.cycle && q.base == p.base
  {
    if n == 0 then p else CopySlot(CopySlots(p, n - 1), n - 1)
  }

  function Submit(p: Producer): (q: Producer)
    requires p.Valid()
    ensures q.Valid()
  {
    CopySlots(p, p.idx + 1)
  }

  function Flip(p: Producer): (q: Producer)
    requires p.Valid()
    ensures q.Valid()
  {
    var next := !p.cycle;
    Producer(
      Repeat(ToUnion(Empty(!next)))[LINK_SLOT := LinkRaw(p.base, next)],
      Repeat(EmptyTag),
      Repeat(Empty(!next))[LINK_SLOT := Link(LinkRaw(p.base, next))],
      0, next, p.base)
  }

  lemma {:induction false} CopySlotsAt(p: Producer, n: nat, i: nat)
    requires p.Valid() && n <= p.idx + 1 && i < MAX_TRB_COUNT
    ensures CopySlots(p, n).trbs[i] == if i < n then ToUnion(p.staging[i]) else p.trbs[i]
    ensures CopySlots(p, n).tags[i] == if i < n then ToTag(p.staging[i]) else p.tags[i]
    decreases n
  {
    if n == 0 {
    } else {
      CopySlotsAt(p, n - 1, i);
    }
  }

  /** After a submission every staged block can be read back from the ring under its tag. */
  lemma SubmitReadsBack(p: Producer, i: nat)
    requires p.Valid() && i <= p.idx
    ensures var q := Submit(p); FromRaw(q.trbs[i], q.tags[i]) == p.staging[i]
  {
    CopySlotsAt(p, p.idx + 1, i);
    TaggedRoundTrip(p.staging[i]);
  }

  /** Submitting again without staging more changes nothing. */
  lemma SubmitIsIdempotent(p: Producer)
    requires p.Valid()
    ensures Submit(Submit(p)) == Submit(p)
  {
    var q := Submit(p);
    forall i | 0 <= i < MAX_TRB_COUNT
      ensures Submit(q).trbs[i] == q.trbs[i] && Submit(q).tags[i] == q.tags[i]
    {
      CopySlotsAt(p, p.idx + 1, i);
      CopySlotsAt(q, q.idx + 1, i);
    }
  }

  // ---------- What each operation does, slot by slot ----------

  /** Staging puts the block, with the ring's cycle bit, into the next slot, and changes nothing else. */
  lemma AddStages(p: Producer, t: XhciTrb)
    requires p.Valid() && p.idx < LINK_SLOT
    ensures var q := Add(p, t);
      && q.idx == p.idx + 1 && q.trbs == p.trbs && q.tags == p.tags && q.cycle == p.cycle && q.base == p.base
      && |q.staging| == |p.staging| && (forall i :: 0 <= i < |p.staging| && i != p.idx ==> q.staging[i] == p.staging[i])
      && ToTag(q.staging[p.idx]) == ToTag(t)
      && var u, v := ToUnion(t), ToUnion(q.staging[p.idx]);
         v.d0 == u.d0 && v.d1 == u.d1 && v.d2 == u.d2 && v.control == u.control && v.cycle == p.cycle
  {
    StampTouchesOnlyTheCycle(t, p.cycle);
  }

  /** Submitting publishes the slots up to and including the next free one, and no other. */
  lemma SubmitPublishes(p: Producer, i: nat)
    requires p.Valid() && i < 64
    ensures var q := Submit(p);
      && q.staging == p.staging && q.idx == p.idx && q.cycle == p.cycle && q.base == p.base
      && |q.trbs| == |q.tags| == 64
      && (i <= p.idx ==> q.trbs[i] == ToUnion(p.staging[i]) && q.tags[i] == ToTag(p.staging[i]))
      && (p.idx < i ==> q.trbs[i] == p.trbs[i] && q.tags[i] == p.tags[i])
  {
    CopySlotsAt(p, p.idx + 1, i);
  }

  /** A command that is added and submitted is published dword by dword, with the ring's cycle bit. */
  lemma AddedCommandIsPublished(p: Producer, t: XhciTrb)
    requires p.Valid() && p.idx < LINK_SLOT
    ensures var u, v := ToUnion(t), Submit(Add(p, t)).trbs[p.idx];
      v.d0 == u.d0 && v.d1 == u.d1 && v.d2 == u.d2 && v.control == u.control && v.cycle == p.cycle
  {
    AddStages(p, t);
    SubmitPublishes(Add(p, t), p.idx);
  }

  /** A ring with nothing staged: 63 stale blocks, and the link back to `base` that carries the lap's cycle bit. */
  ghost predicate Cleared(p: Producer, base: nat, cycle: bool) {
    && |p.trbs| == |p.tags| == |p.staging| == 64
    && p.idx == 0 && p.cycle == cycle && p.base == base
    && (forall i :: 0 <= i < 64 ==> p.tags[i] == EmptyTag)
    && (forall i :: 0 <= i < 63 ==> p.trbs[i] == Raw(0, 0, 0, 0, !cycle) && p.staging[i] == Empty(!cycle))
    && p.staging[63] == Link(p.trbs[63])
    && var link := p.trbs[63];
       && link.d0 == base % 0x1_0000_0000 && link.d1 == base / 0x1_0000_0000 && link.d2 == 0
       && link.ControlDword() == 0x1802 + (if cycle then 1 else 0) && link.cycle == cycle
  }

  lemma LinkControl(base: nat, cycle: bool)
    ensures LinkRaw(base, cycle).ControlDword() == 0x1802 + if cycle then 1 else 0
  {
  }

  lemma InitIsCleared(base: nat)
    ensures Cleared(Init(base), base, true)
  {
    LinkControl(base, true);
  }

  lemma FlipIsCleared(p: Producer)
    requires p.Valid()
    ensures Cleared(Flip(p), p.base, !p.cycle)
  {
    LinkControl(p.base, !p.cycle);
  }

  class XhciCommandRing {
    const trbs: array<Raw>
    const trbTags: array<XhciTrbTag>
    const stagingTrbs: array<XhciTrb>
    var stagingEnqueueIndex: nat
    var cycleBit: bool
    const base: nat

    ghost predicate Valid()
      reads this
    {
      trbs.Length == trbTags.Length == stagingTrbs.Length == MAX_TRB_COUNT && stagingEnqueueIndex <= LINK_SLOT
    }

    ghost function View(): (p: Producer)
      requires Valid()
      reads this, trbs, trbTags, stagingTrbs
      ensures p.Valid()
    {
      Producer(trbs[..], trbTags[..], stagingTrbs[..], stagingEnqueueIndex, cycleBit, base)
    }

    constructor (base: nat)
      ensures Valid() && fresh(trbs) && fresh(trbTags) && fresh(stagingTrbs) && View() == Init(base)
    {
      this.base := base;
      stagingEnqueueIndex, cycleBit := 0, true;
      trbs := new Raw[MAX_TRB_COUNT](_ => ZEROED);
      trbTags := new XhciTrbTag[MAX_TRB_COUNT](_ => EmptyTag);
      stagingTrbs := new XhciTrb[MAX_TRB_COUNT](_ => Empty(false));
      new;
      var link := LinkRaw(base, true);
      stagingTrbs[LINK_SLOT] := Link(link);
      trbs[LINK_SLOT] := ToUnion(Link(link));
      assert trbs[..] == Init(base).trbs;
      assert trbTags[..] == Init(base).tags;
      assert stagingTrbs[..] == Init(base).staging;
    }

    /** Refuses when the ring is full; the source panics on an empty block otherwise. */
    method AddTrb(t: XhciTrb) returns (added: bool)
      requires Valid() && (stagingEnqueueIndex < LINK_SLOT ==> ToTag(t) != EmptyTag)
      modifies this`stagingEnqueueIndex, stagingTrbs
      ensures Valid() && added == (old(stagingEnqueueIndex) < LINK_SLOT)
      ensures View() == if added then Add(old(View()), t) else old(View())
    {
      if stagingEnqueueIndex == MAX_TRB_COUNT - 1 {
        return false;
      }
      stagingTrbs[stagingEnqueueIndex] := SetCycleBit(t, cycleBit);
      stagingEnqueueIndex := stagingEnqueueIndex + 1;
      added := true;
    }

    method SubmitTrbs()
      requires Valid()
      modifies trbs, trbTags
      ensures Valid() && View() == Submit(old(View()))
    {
      ghost var p := View();
      for i := 0 to stagingEnqueueIndex + 1
        invariant stagingTrbs[..] == p.staging
        invariant trbs[..] == CopySlots(p, i).trbs && trbTags[..] == CopySlots(p, i).tags
      {
        trbs[i] := ToUnion(stagingTrbs[i]);
        trbTags[i] := ToTag(stagingTrbs[i]);
        assert trbs[..] == CopySlots(p, i).trbs[i := ToUnion(p.staging[i])];
        assert trbTags[..] == CopySlots(p, i).tags[i := ToTag(p.staging[i])];
      }
    }

    method FlipRing()
      requires Valid()
      modifies this`stagingEnqueueIndex, this`cycleBit, trbs, trbTags, stagingTrbs
      ensures Valid() && View() == Flip(old(View()))
    {
      var next := !cycleBit;
      forall i | 0 <= i < MAX_TRB_COUNT { trbs[i] := ToUnion(Empty(!next)); }
      forall i | 0 <= i < MAX_TRB_COUNT { trbTags[i] := EmptyTag; }
      forall i | 0 <= i < MAX_TRB_COUNT { stagingTrbs[i] := Empty(!next); }
      stagingEnqueueIndex := 0;
      cycleBit := next;
      var link := LinkRaw(base, next);
      stagingTrbs[LINK_SLOT] := Link(link);
      trbs[LINK_SLOT] := ToUnion(Link(link));
      ghost var q := Flip(old(View()));
      assert trbs[..] == q.trbs;
      assert trbTags[..] == q.tags;
      assert stagingTrbs[..] == q.staging;
    }
  }
}
