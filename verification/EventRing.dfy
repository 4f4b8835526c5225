/** The event ring: the driver consumes, the controller produces, the cycle bit tells them apart. */
module EventRing {
  import opened Wrappers
  import opened Arithmetic
  import opened Trb

  const SEGMENT_SIZE: nat := 128
  const TRB_BYTES: nat := 16

  predicate EvenLap(n: nat) { n / SEGMENT_SIZE % 2 == 0 }

  /** What the driver keeps: the segment it shares with the controller and its own position. */
  datatype Consumer = Consumer(trbs: seq<Raw>, cycle: bool, idx: nat) {
    predicate Valid() { |trbs| == SEGMENT_SIZE && idx < SEGMENT_SIZE }
  }

  function Advance(c: Consumer): (d: Consumer)
    requires c.Valid()
    ensures d.Valid()
  {
    if c.idx + 1 == SEGMENT_SIZE then c.(idx := 0, cycle := !c.cycle) else c.(idx := c.idx + 1)
  }

  /** The next slot; behind the last of the 128 comes the first again, with the other cycle. */
  lemma AdvanceWraps(c: Consumer)
    requires c.Valid()
    ensures var d := Advance(c);
      && d.trbs == c.trbs && d.idx == (if c.idx == 127 then 0 else c.idx + 1)
      && d.cycle == (if c.idx == 127 then !c.cycle else c.cycle)
  {
  }

  function AdvanceBy(c: Consumer, k: nat): (d: Consumer)
    requires c.Valid()
    ensures d.Valid() && d.trbs == c.trbs
  {
    if k == 0 then c else Advance(AdvanceBy(c, k - 1))
  }

  /** The slot at the driver's position holds an event it has not consumed. */
  predicate Ready(c: Consumer)
    requires c.Valid()
  {
    CycleBit(c.trbs[c.idx]) == c.cycle
  }

  /** The events from the driver's position up to the first stale slot, at most `fuel` of them. */
  function PendingUpTo(c: Consumer, fuel: nat): (s: seq<Raw>)
    requires c.Valid()
    ensures |s| <= fuel
    decreases fuel
  {
    if fuel == 0 || !Ready(c) then [] else [c.trbs[c.idx]] + PendingUpTo(Advance(c), fuel - 1)
  }

  /** For a fixed segment: everything the driver would take now, one lap at most. */
  function Pending(c: Consumer): (s: seq<Raw>)
    requires c.Valid()
    ensures |s| <= SEGMENT_SIZE
  {
    PendingUpTo(c, |c.trbs|)
  }

  lemma {:induction false} AdvanceByIs(c: Consumer, k: nat)
    requires c.Valid() && k <= SEGMENT_SIZE
    ensures AdvanceBy(c, k) ==
      if c.idx + k < SEGMENT_SIZE then c.(idx := c.idx + k)
      else c.(idx := c.idx + k - SEGMENT_SIZE, cycle := !c.cycle)
  {
    if k == 0 {
    } else {
      AdvanceByIs(c, k - 1);
    }
  }

  /** One lap at most: a slot that was ready is stale when the driver comes round to it again. */
  lemma ReadyOnlyOnce(c: Consumer)
    requires c.Valid() && Ready(c)
    ensures !Ready(AdvanceBy(c, SEGMENT_SIZE))
  {
    AdvanceByIs(c, SEGMENT_SIZE);
  }

  // The event ring dequeue pointer register of the interrupter, as written by the driver.
  datatype DequeuePointer = DequeuePointer(segment: nat, handlerBusy: bool, pointer: nat)

  datatype DequeueResult = Finished(count: nat) | BufferTooSmall(count: nat)

  /** Shifting an aligned address down and reading it back scaled loses no bit. */
  lemma PointerIsExact(base: nat, idx: nat)
    requires base % 64 == 0
    ensures (base + 16 * idx) / 16 * 16 == base + 16 * idx
    ensures base / 16 * 16 == base
  {
    var q := base / 64;
    assert base == 64 * q;
    DivModUnique(base, 16, 4 * q, 0);
    DivModUnique(base + 16 * idx, 16, 4 * q + idx, 0);
  }

  class XhciEventRing {
    const trbs: array<Raw>
    const base: nat  // physical address of the segment
    var cycleBit: bool
    var dequeueIdx: nat
    var published: DequeuePointer

    ghost predicate Valid()
      reads this
    {
      trbs.Length == SEGMENT_SIZE && dequeueIdx < SEGMENT_SIZE && base % 64 == 0
    }

    ghost function View(): (c: Consumer)
      requires Valid()
      reads this, trbs
      ensures c.Valid()
    {
      Consumer(trbs[..], cycleBit, dequeueIdx)
    }

    constructor (base: nat)
      requires base % 64 == 0
      ensures Valid() && fresh(trbs)
      ensures this.base == base && View() == Consumer(seq(SEGMENT_SIZE, _ => ZEROED), true, 0)
      ensures trbs.Length == 128 && forall i :: 0 <= i < 128 ==> trbs[i] == Raw(0, 0, 0, 0, false)
      ensures PointsToPosition()
    {
      PointerIsExact(base, 0);
      trbs := new Raw[SEGMENT_SIZE](_ => ZEROED);
      this.base := base;
      cycleBit, dequeueIdx := true, 0;
      published := DequeuePointer(0, true, base / 16);
    }

    /** The register names the driver's slot: no bit of the address is lost, and it lies in the segment. */
    ghost predicate PointsToPosition()
      reads this
    {
      && published.segment == 0 && published.handlerBusy
      && published.pointer * 16 == base + 16 * dequeueIdx
      && base <= published.pointer * 16 < base + 16 * 128
    }

    method GetDequeuePtr() returns (p: DequeuePointer)
      requires Valid()
      ensures p.segment == 0 && !p.handlerBusy && p.pointer == (base + 16 * dequeueIdx) / 16
    {
      p := DequeuePointer(0, false, (base + TRB_BYTES * dequeueIdx) / 16);
    }

    method Publish()
      requires Valid()
      modifies this`published
      ensures PointsToPosition()
    {
      PointerIsExact(base, dequeueIdx);
      var p := GetDequeuePtr();
      published := p.(handlerBusy := true);
    }

    method DequeueTrb() returns (r: Option<Raw>)
      requires Valid()
      modifies this`cycleBit, this`dequeueIdx
      ensures Valid()
      ensures if Ready(old(View())) then r == Some(old(trbs[dequeueIdx])) && View() == Advance(old(View()))
              else r == None && View() == old(View())
    {
      if CycleBit(trbs[dequeueIdx]) != cycleBit {
        return None;
      }
      var trb := trbs[dequeueIdx];
      dequeueIdx := dequeueIdx + 1;
      if dequeueIdx == SEGMENT_SIZE {
        dequeueIdx := 0;
        cycleBit := !cycleBit;
      }
      r := Some(trb);
    }

    /** The draining loop, with the events it is to deliver given as `pending`. */
    method Drain(buffer: array<Raw>, ghost pending: seq<Raw>) returns (res: DequeueResult)
      requires Valid() && buffer != trbs && IsPending(View(), pending)
      modifies this`cycleBit, this`dequeueIdx, this`published, buffer
      ensures Valid() && PointsToPosition()
      ensures |pending| <= buffer.Length ==>
        && res == Finished(|pending|) && View() == AdvanceBy(old(View()), |pending|)
        && buffer[..|pending|] == pending && buffer[|pending|..] == old(buffer[..])[|pending|..]
      ensures |pending| > buffer.Length ==>
        && res == BufferTooSmall(buffer.Length) && View() == AdvanceBy(old(View()), buffer.Length + 1)
        && buffer[..] == pending[..buffer.Length]
    {
      var idx := 0;
      ghost var start := View();
      assert AdvanceBy(start, 0) == start;
      var trb := DequeueTrb();
      while trb.Some?
        invariant Valid() && trbs[..] == start.trbs && idx <= buffer.Length && idx <= |pending|
        invariant trb.Some? ==> idx < |pending| && trb.value == pending[idx] && View() == AdvanceBy(start, idx + 1)
        invariant trb.None? ==> idx == |pending| && View() == AdvanceBy(start, idx)
        invariant forall j :: 0 <= j < idx ==> buffer[j] == pending[j]
        invariant forall j :: idx <= j < buffer.Length ==> buffer[j] == old(buffer[j])
        decreases |pending| - idx, if trb.Some? then 1 else 0
      {
        if idx < buffer.Length {
          buffer[idx] := trb.value;
        } else {
          Publish();
          assert buffer[..] == pending[..buffer.Length];
          return BufferTooSmall(idx);
        }
        idx := idx + 1;
        assert View() == AdvanceBy(start, idx);
        trb := DequeueTrb();
      }
      Publish();
      assert buffer[..idx] == pending;
      assert buffer[idx..] == old(buffer[..])[idx..];
      res := Finished(idx);
    }

    /**
     * Drains the ring into the buffer. It stops after at most one lap, whatever the segment holds;
     * when the buffer is too small, one event more than it holds has been taken and is gone.
     */
    method DequeueEvents(buffer: array<Raw>) returns (res: DequeueResult)
      requires Valid() && buffer != trbs
      modifies this`cycleBit, this`dequeueIdx, this`published, buffer
      ensures Valid() && PointsToPosition()
      ensures var pending := Pending(old(View()));
        if |pending| <= buffer.Length then
          && res == Finished(|pending|) && View() == AdvanceBy(old(View()), |pending|)
          && !Ready(View())
          && buffer[..|pending|] == pending && buffer[|pending|..] == old(buffer[..])[|pending|..]
        else
          && res == BufferTooSmall(buffer.Length) && View() == AdvanceBy(old(View()), buffer.Length + 1)
          && buffer[..] == pending[..buffer.Length]
    {
      PendingIsPending(View());
      res := Drain(buffer, Pending(View()));
    }
  }

  /** `s` is what the driver would take: ready slot after ready slot, then a stale one. */
  ghost predicate IsPending(c: Consumer, s: seq<Raw>)
    requires c.Valid()
  {
    forall k :: 0 <= k <= |s| ==>
      var d := AdvanceBy(c, k);
      (Ready(d) <==> k < |s|) && (k < |s| ==> s[k] == d.trbs[d.idx])
  }

  lemma PendingIsPending(c: Consumer)
    requires c.Valid()
    ensures IsPending(c, Pending(c))
  {
    forall k | 0 <= k <= |Pending(c)|
      ensures (Ready(AdvanceBy(c, k)) <==> k < |Pending(c)|)
      ensures k < |Pending(c)| ==> Pending(c)[k] == AdvanceBy(c, k).trbs[AdvanceBy(c, k).idx]
    {
      PendingStep(c, k);
    }
  }

  /** The k-th pending event is the one at the position k steps on; there are none beyond the first stale slot. */
  lemma {:induction false} PendingAt(c: Consumer, fuel: nat, k: nat)
    requires c.Valid() && k <= |PendingUpTo(c, fuel)|
    ensures var d := AdvanceBy(c, k);
      && (k < |PendingUpTo(c, fuel)| ==> Ready(d) && PendingUpTo(c, fuel)[k] == d.trbs[d.idx])
      && (k == |PendingUpTo(c, fuel)| ==> k == fuel || !Ready(d))
    decreases k
  {
    if k == 0 {
    } else {
      PendingAt(Advance(c), fuel - 1, k - 1);
      AdvanceTail(c, k - 1);
    }
  }

  lemma {:induction false} AdvanceTail(c: Consumer, k: nat)
    requires c.Valid()
    ensures AdvanceBy(Advance(c), k) == AdvanceBy(c, k + 1)
  {
    if k == 0 {
    } else {
      AdvanceTail(c, k - 1);
    }
  }

  lemma PendingStep(c: Consumer, k: nat)
    requires c.Valid() && k <= |Pending(c)|
    ensures var d := AdvanceBy(c, k);
      && (Ready(d) <==> k < |Pending(c)|)
      && (Ready(d) ==> Pending(c)[k] == d.trbs[d.idx])
  {
    PendingAt(c, |c.trbs|, k);
    if k == SEGMENT_SIZE {
      PendingAt(c, |c.trbs|, 0);
      ReadyOnlyOnce(c);
    }
  }
}
