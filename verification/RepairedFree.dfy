/**
 * A proposal, not the source: `free` with three repairs, proved to give back every byte. It takes a
 * region that begins at the freed base out before it looks for the neighbours (such a region is empty
 * and would hide a next one that touches), adds the freed size to
 * the freed base and not to the predecessor's, and never lets a successor end the merged region early.
 */
module RepairedFree {
  import opened Arithmetic
  import opened Wrappers
  import opened Regions
  import opened Coalescing

  function RepairedPredecessor(p: Option<Region>, base: nat, size: nat): (m: Merge)
    requires p.Some? ==> p.value.base < base
    ensures m.base <= base
  {
    if p.Some? && p.value.End() >= base then
      Merge(p.value.base, Max(base + size, p.value.End()) - p.value.base, Some(p.value.base), None)
    else
      Merge(base, size, None, None)
  }

  function RepairedSuccessor(m: Merge, z: Option<Region>): Merge
    requires z.Some? ==> m.base <= z.value.base
  {
    if z.Some? && m.base + m.size >= z.value.base then
      m.(size := Max(m.base + m.size, z.value.End()) - m.base, succKey := Some(z.value.base))
    else
      m
  }

  function RepairedRegions(s: seq<Region>, base: nat, size: nat): seq<Region>
    requires StrictlySorted(s)
  {
    var t := RemoveKey(s, base);
    RemoveKeySorted(s, base);
    RankSplits(t, base);
    var m := RepairedSuccessor(RepairedPredecessor(Predecessor(t, base), base, size), Successor(t, base));
    PutBack(RemoveOption(RemoveOption(t, m.predKey), m.succKey), m.base, m.size)
  }

  lemma DropKeepsInUse(s: seq<Region>, i: nat, b: Region)
    requires InUse(s, b) && i < |s|
    ensures InUse(s[..i] + s[i + 1..], b) && !HasKey(s[..i] + s[i + 1..], s[i].base)
  {
    var t := s[..i] + s[i + 1..];
    assert forall j :: 0 <= j < |t| ==> t[j] == s[if j < i then j else j + 1];
    forall j | 0 <= j < |t| ensures t[j].base != s[i].base && Apart(t[j], b) {
      var k := if j < i then j else j + 1;
      assert Apart(s[k], b);
      assert s[if k < i then k else i].End() < s[if k < i then i else k].base;
    }
    forall j, l | 0 <= j < l < |t| ensures t[j].End() < t[l].base {
      assert s[if j < i then j else j + 1].End() < s[if l < i then l else l + 1].base;
    }
  }

  lemma DropEmptyKeepsBytes(s: seq<Region>, i: nat, x: nat)
    requires i < |s| && s[i].size == 0
    ensures Total(s[..i] + s[i + 1..]) == Total(s)
    ensures Covers(s[..i] + s[i + 1..], x) <==> Covers(s, x)
  {
    assert s == s[..i] + ([s[i]] + s[i + 1..]);
    TotalSplit(s, i);
    TotalAdds(s[..i], s[i + 1..]);
    CoversParts(s[..i], [s[i]] + s[i + 1..], x);
    CoversParts([s[i]], s[i + 1..], x);
    CoversParts(s[..i], s[i + 1..], x);
    CoversOne(s[i], x);
  }

  /** Only an empty region can begin at the base of a block in use; without it the block is still in use. */
  lemma RemovedWasEmpty(s: seq<Region>, b: Region, x: nat)
    requires InUse(s, b)
    ensures var t := RemoveKey(s, b.base);
      && InUse(t, b) && !HasKey(t, b.base)
      && Total(t) == Total(s) && (Covers(t, x) <==> Covers(s, x))
  {
    if HasKey(s, b.base) {
      var i :| 0 <= i < |s| && s[i].base == b.base;
      SeparatedIsSorted(s);
      RemoveKeyAt(s, i);
      assert Apart(s[i], b);
      DropKeepsInUse(s, i, b);
      DropEmptyKeepsBytes(s, i, x);
    } else {
      RemoveKeyAbsent(s, b.base);
    }
  }

  /** What stands in the place of the two neighbours: all that touches becomes one region. */
  function Joined(p: Option<Region>, z: Option<Region>, b: Region): seq<Region> {
    var low := if TouchesBelow(p, b) then p.value.base else b.base;
    var high := if TouchesAbove(z, b) then z.value.End() else b.End();
    (if TouchesBelow(p, b) then [] else AsSeq(p)) + [Region(low, if low <= high then high - low else 0)]
      + (if TouchesAbove(z, b) then [] else AsSeq(z))
  }

  lemma RepairedNeighbours(p: Option<Region>, z: Option<Region>, b: Region)
    requires Neighbours(p, z, b) && !EmptyAt(z, b)
    ensures var m := RepairedSuccessor(RepairedPredecessor(p, b.base, b.size), z);
      (if m.predKey.Some? then [] else AsSeq(p)) + Single(m.base, m.size) + (if m.succKey.Some? then [] else AsSeq(z))
        == Joined(p, z, b)
  {
  }

  lemma SuccessorIsBehind(s: seq<Region>, b: Region)
    requires InUse(s, b) && !HasKey(s, b.base)
    ensures !EmptyAt(Successor(s, b.base), b)
  {
    var k := Rank(s, b.base);
    assert k < |s| ==> s[k].base != b.base;
  }

  /** Replacing the neighbours leaves what is below and above them. */
  lemma ReplacedAround(s: seq<Region>, base: nat, m: Merge)
    requires StrictlySorted(s) && MergesNeighbours(s, base, m)
    ensures var r := AroundOf(s, base);
      PutBack(RemoveOption(RemoveOption(s, m.predKey), m.succKey), m.base, m.size)
        == r.below
           + ((if m.predKey.Some? then [] else AsSeq(r.pred)) + Single(m.base, m.size)
              + (if m.succKey.Some? then [] else AsSeq(r.succ)))
           + r.above
  {
    var r := AroundOf(s, base);
    ReplaceNeighbours(s, base, m);
    SlicesAround(s, base, m.predKey.Some?, m.succKey.Some?);
    var front := if m.predKey.Some? then [] else AsSeq(r.pred);
    var back := if m.succKey.Some? then [] else AsSeq(r.succ);
    assert s[..MergeFrom(s, base, m)] == r.below + front && s[MergeTo(s, base, m)..] == back + r.above;
    GroupMiddle(r.below, front, Single(m.base, m.size), back, r.above);
  }

  lemma RepairedMergesNeighbours(s: seq<Region>, base: nat, size: nat)
    requires StrictlySorted(s) && !HasKey(s, base)
    ensures RankSplitsHere(s, base)
    ensures MergesNeighbours(s, base,
      RepairedSuccessor(RepairedPredecessor(Predecessor(s, base), base, size), Successor(s, base)))
  {
    RankSplits(s, base);
    var k := Rank(s, base);
    assert k < |s| ==> s[k].base != base;
  }

  ghost predicate RankSplitsHere(s: seq<Region>, base: nat) {
    && (Predecessor(s, base).Some? ==> Predecessor(s, base).value.base < base)
    && (Successor(s, base).Some? ==> base <= Successor(s, base).value.base)
  }

  lemma RepairedIsJoined(s: seq<Region>, b: Region)
    requires InUse(s, b) && !HasKey(s, b.base)
    ensures StrictlySorted(s)
    ensures var r := AroundOf(s, b.base);
      RepairedRegions(s, b.base, b.size) == r.below + Joined(r.pred, r.succ, b) + r.above
  {
    AroundSplits(s, b);
    RemoveKeyAbsent(s, b.base);
    SuccessorIsBehind(s, b);
    RepairedMergesNeighbours(s, b.base, b.size);
    var r := AroundOf(s, b.base);
    RepairedNeighbours(r.pred, r.succ, b);
    ReplacedAround(s, b.base, RepairedSuccessor(RepairedPredecessor(r.pred, b.base, b.size), r.succ));
  }

  /** The part of the joined regions that holds the block. */
  function Middle(p: Option<Region>, z: Option<Region>, b: Region): Region
    requires Neighbours(p, z, b) && !EmptyAt(z, b)
  {
    var low := if TouchesBelow(p, b) then p.value.base else b.base;
    var high := if TouchesAbove(z, b) then z.value.End() else b.End();
    Region(low, high - low)
  }

  lemma JoinedParts(p: Option<Region>, z: Option<Region>, b: Region, x: nat)
    requires Neighbours(p, z, b) && !EmptyAt(z, b)
    ensures var front := if TouchesBelow(p, b) then [] else AsSeq(p);
      var back := if TouchesAbove(z, b) then [] else AsSeq(z);
      && Total(Joined(p, z, b)) == Total(front) + Middle(p, z, b).size + Total(back)
      && (Covers(Joined(p, z, b), x) <==> Covers(front, x) || Contains(Middle(p, z, b), x) || Covers(back, x))
  {
    var front := if TouchesBelow(p, b) then [] else AsSeq(p);
    var back := if TouchesAbove(z, b) then [] else AsSeq(z);
    var mid := Middle(p, z, b);
    ReplaceAccounts(front, [mid], back, x);
    CoversOne(mid, x);
    TotalCons(mid, []);
    assert [mid] + [] == [mid];
  }

  lemma OneOrNone(o: Option<Region>, x: nat)
    ensures Total(AsSeq(o)) == if o.Some? then o.value.size else 0
    ensures Covers(AsSeq(o), x) <==> o.Some? && Contains(o.value, x)
  {
    if o.Some? {
      CoversOne(o.value, x);
      TotalCons(o.value, []);
      assert [o.value] + [] == [o.value];
    }
  }

  lemma JoinedAccounts(p: Option<Region>, z: Option<Region>, b: Region, x: nat)
    requires Neighbours(p, z, b) && !EmptyAt(z, b)
    ensures Total(Joined(p, z, b)) == Total(AsSeq(p)) + Total(AsSeq(z)) + b.size
    ensures Covers(Joined(p, z, b), x) <==> Covers(AsSeq(p), x) || Covers(AsSeq(z), x) || Contains(b, x)
  {
    JoinedParts(p, z, b, x);
    OneOrNone(p, x);
    OneOrNone(z, x);
    OneOrNone(None, x);
  }

  lemma JoinedSeparated(p: Option<Region>, z: Option<Region>, b: Region)
    requires Neighbours(p, z, b) && !EmptyAt(z, b)
    ensures Separated(Joined(p, z, b))
    ensures p.Some? ==> forall i :: 0 <= i < |Joined(p, z, b)| ==> p.value.base <= Joined(p, z, b)[i].base
    ensures z.Some? ==> forall i :: 0 <= i < |Joined(p, z, b)| ==> Joined(p, z, b)[i].End() <= z.value.End()
  {
  }

  lemma RepairedWithoutKey(s: seq<Region>, b: Region, x: nat)
    requires InUse(s, b) && !HasKey(s, b.base)
    ensures StrictlySorted(s)
    ensures var t := RepairedRegions(s, b.base, b.size);
      Separated(t) && Total(t) == Total(s) + b.size && (Covers(t, x) <==> Covers(s, x) || Contains(b, x))
  {
    AroundSplits(s, b);
    RepairedIsJoined(s, b);
    var r := AroundOf(s, b.base);
    var were, are := AsSeq(r.pred) + AsSeq(r.succ), Joined(r.pred, r.succ, b);
    SuccessorIsBehind(s, b);
    JoinedSeparated(r.pred, r.succ, b);
    SeparatedReplace(r.below, were, are, r.above);
    JoinedAccounts(r.pred, r.succ, b, x);
    ReplaceAccounts(r.below, were, r.above, x);
    ReplaceAccounts(r.below, are, r.above, x);
    TotalAdds(AsSeq(r.pred), AsSeq(r.succ));
    CoversParts(AsSeq(r.pred), AsSeq(r.succ), x);
  }

  lemma ReplaceAccounts(a: seq<Region>, mid: seq<Region>, c: seq<Region>, x: nat)
    ensures Total(a + mid + c) == Total(a) + Total(mid) + Total(c)
    ensures Covers(a + mid + c, x) <==> Covers(a, x) || Covers(mid, x) || Covers(c, x)
  {
    TotalAdds(a + mid, c);
    TotalAdds(a, mid);
    CoversParts(a + mid, c, x);
    CoversParts(a, mid, x);
  }

  /** With the repairs, freeing any block in use makes exactly its bytes free, and regions stay separated. */
  lemma RepairedFreeConserves(s: seq<Region>, b: Region)
    requires InUse(s, b)
    ensures StrictlySorted(s)
    ensures var t := RepairedRegions(s, b.base, b.size);
      && Separated(t)
      && Total(t) == Total(s) + b.size
      && forall x :: Covers(t, x) <==> Covers(s, x) || Contains(b, x)
  {
    SeparatedIsSorted(s);
    var u := RemoveKey(s, b.base);
    RemovedWasEmpty(s, b, 0);
    RepairedWithoutKey(u, b, 0);
    RemoveKeyAbsent(u, b.base);
    forall x ensures Covers(RepairedRegions(s, b.base, b.size), x) <==> Covers(s, x) || Contains(b, x) {
      RemovedWasEmpty(s, b, x);
      RepairedWithoutKey(u, b, x);
    }
  }

  /** Where the source loses nothing, the repairs change nothing. */
  lemma RepairsOnlyWhereBytesAreLost(s: seq<Region>, b: Region)
    requires InUse(s, b) && LossOf(s, b) == 0
    ensures StrictlySorted(s) && RepairedRegions(s, b.base, b.size) == FreeRegions(s, b.base, b.size)
  {
    AroundSplits(s, b);
    LossIsAtTouchingNeighbour(s, b);
    forall i | 0 <= i < |s| ensures s[i].base != b.base { assert Apart(s[i], b); }
    FreeRefills(s, b);
    RepairedIsJoined(s, b);
    SuccessorIsBehind(s, b);
    JoinedIsRefill(Predecessor(s, b.base), Successor(s, b.base), b);
  }

  lemma JoinedIsRefill(p: Option<Region>, z: Option<Region>, b: Region)
    requires Neighbours(p, z, b) && !EmptyAt(z, b) && FreeLoss(p, z, b) == 0
    ensures Joined(p, z, b) == Refill(p, z, b)
  {
    LossNeedsTouchingNeighbour(p, z, b);
  }
}
