/** What `free` does to the ordered regions, as written, and what that keeps and loses. */
module Coalescing {
  import opened Arithmetic
  import opened Wrappers
  import opened Regions

  // ---------- Totals ----------

  function Total(s: seq<Region>): nat {
    if s == [] then 0 else s[0].size + Total(s[1..])
  }

  lemma {:induction false} TotalAdds(a: seq<Region>, b: seq<Region>)
    ensures Total(a + b) == Total(a) + Total(b)
  {
    if a == [] {
      assert a + b == b;
    } else {
      assert (a + b)[1..] == a[1..] + b;
      TotalAdds(a[1..], b);
    }
  }

  lemma TotalCons(x: Region, b: seq<Region>)
    ensures Total([x] + b) == x.size + Total(b)
  {
    assert ([x] + b)[1..] == b;
  }

  lemma TotalSplit(s: seq<Region>, i: nat)
    requires i < |s|
    ensures Total(s) == Total(s[..i]) + s[i].size + Total(s[i + 1..])
  {
    var a, b := s[..i], s[i + 1..];
    assert s == a + ([s[i]] + b);
    TotalAdds(a, [s[i]] + b);
    TotalCons(s[i], b);
  }

  // ---------- Neighbours ----------

  /** The number of regions whose base lies below `addr`. */
  function Rank(s: seq<Region>, addr: nat): (k: nat)
    ensures k <= |s|
  {
    if s == [] || s[0].base >= addr then 0 else 1 + Rank(s[1..], addr)
  }

  lemma {:induction false} RankSplits(s: seq<Region>, addr: nat)
    requires StrictlySorted(s)
    ensures forall i :: 0 <= i < Rank(s, addr) ==> s[i].base < addr
    ensures forall i :: Rank(s, addr) <= i < |s| ==> addr <= s[i].base
  {
    if s != [] && s[0].base < addr { RankSplits(s[1..], addr); }
  }

  /** The last region that begins below `addr`. */
  function Predecessor(s: seq<Region>, addr: nat): Option<Region> {
    var k := Rank(s, addr);
    if k == 0 then None else Some(s[k - 1])
  }

  /** The first region that begins at or above `addr`. */
  function Successor(s: seq<Region>, addr: nat): (r: Option<Region>) {
    var k := Rank(s, addr);
    if k == |s| then None else Some(s[k])
  }

  // ---------- Freeing, as written ----------

  /** The region `free` puts back, and the keys of the neighbours it takes out for it. */
  datatype Merge = Merge(base: nat, size: nat, predKey: Option<nat>, succKey: Option<nat>)

  function MergePredecessor(p: Option<Region>, base: nat, size: nat): (m: Merge)
    requires p.Some? ==> p.value.base < base
    ensures m.base <= base && m.succKey == None
  {
    if p.Some? && p.value.End() >= base then
      // The source overwrites new_base before it adds the freed size to it.
      var newBase := p.value.base;
      Merge(newBase, Max(newBase + size, p.value.End()) - newBase, Some(newBase), None)
    else
      Merge(base, size, None, None)
  }

  function MergeSuccessor(m: Merge, s: Option<Region>): Merge
    requires s.Some? ==> m.base <= s.value.base
  {
    if s.Some? && m.base + m.size >= s.value.base then
      m.(size := s.value.End() - m.base, succKey := Some(s.value.base))
    else
      m
  }

  function FreeMerge(s: seq<Region>, base: nat, size: nat): Merge
    requires StrictlySorted(s)
  {
    RankSplits(s, base);
    MergeSuccessor(MergePredecessor(Predecessor(s, base), base, size), Successor(s, base))
  }

  function RemoveOption(s: seq<Region>, key: Option<nat>): seq<Region> {
    if key.Some? then RemoveKey(s, key.value) else s
  }

  function PutBack(rest: seq<Region>, base: nat, size: nat): seq<Region> {
    if size == 0 then rest else InsertInOrder(rest, Region(base, size))
  }

  function FreeRegions(s: seq<Region>, base: nat, size: nat): seq<Region>
    requires StrictlySorted(s)
  {
    var m := FreeMerge(s, base, size);
    PutBack(RemoveOption(RemoveOption(s, m.predKey), m.succKey), m.base, m.size)
  }

  // ---------- Its explicit form ----------

  lemma {:induction false} InsertBetween(a: seq<Region>, b: seq<Region>, r: Region)
    requires forall i :: 0 <= i < |a| ==> a[i].base <= r.base
    requires b != [] ==> r.base < b[0].base
    ensures InsertInOrder(a + b, r) == a + [r] + b
  {
    if a == [] {
      assert a + b == b;
    } else {
      assert (a + b)[1..] == a[1..] + b;
      InsertBetween(a[1..], b, r);
      assert a == [a[0]] + a[1..];
    }
  }

  function Single(base: nat, size: nat): seq<Region> {
    if size == 0 then [] else [Region(base, size)]
  }

  lemma PutBetween(a: seq<Region>, b: seq<Region>, base: nat, size: nat)
    requires forall i :: 0 <= i < |a| ==> a[i].base <= base
    requires size > 0 && b != [] ==> base < b[0].base
    ensures PutBack(a + b, base, size) == a + Single(base, size) + b
  {
    if size == 0 { assert a + [] == a; } else { InsertBetween(a, b, Region(base, size)); }
  }

  lemma DropAt(s: seq<Region>, i: nat, j: nat)
    requires StrictlySorted(s) && i <= j < |s|
    ensures RemoveKey(s[..i] + s[j..], s[j].base) == s[..i] + s[j + 1..]
  {
    var t := s[..i] + s[j..];
    assert t[i] == s[j];
    RemoveKeyAt(t, i);
    assert t[..i] == s[..i] && t[i + 1..] == s[j + 1..];
  }

  lemma NeighboursRemoved(s: seq<Region>, k: nat, pred: bool, succ: bool)
    requires StrictlySorted(s) && (if pred then 1 else 0) <= k && k + (if succ then 1 else 0) <= |s|
    ensures var predKey := if pred then Some(s[k - 1].base) else None;
      var succKey := if succ then Some(s[k].base) else None;
      RemoveOption(RemoveOption(s, predKey), succKey)
        == s[..if pred then k - 1 else k] + s[if succ then k + 1 else k..]
  {
    var i := if pred then k - 1 else k;
    if pred { RemoveKeyAt(s, i); }
    assert s == s[..k] + s[k..];
    if succ { DropAt(s, i, k); }
  }

  /** The keys of `m` are the neighbours of `base`, and its base lies between what is below and above them. */
  ghost predicate MergesNeighbours(s: seq<Region>, base: nat, m: Merge) {
    var k := Rank(s, base);
    && (if m.predKey.Some? then k > 0 && m.predKey.value == s[k - 1].base == m.base else m.base == base)
    && (if m.succKey.Some? then k < |s| && m.succKey.value == s[k].base else k < |s| && m.size > 0 ==> m.base < s[k].base)
  }

  function MergeFrom(s: seq<Region>, base: nat, m: Merge): int {
    if m.predKey.Some? then Rank(s, base) - 1 else Rank(s, base)
  }

  function MergeTo(s: seq<Region>, base: nat, m: Merge): int {
    if m.succKey.Some? then Rank(s, base) + 1 else Rank(s, base)
  }

  /** Taking the neighbours out and putting the merged region in happens in one place. */
  lemma ReplaceNeighbours(s: seq<Region>, base: nat, m: Merge)
    requires StrictlySorted(s) && MergesNeighbours(s, base, m)
    ensures var i, j := MergeFrom(s, base, m), MergeTo(s, base, m);
      && 0 <= i <= Rank(s, base) <= j <= |s|
      && PutBack(RemoveOption(RemoveOption(s, m.predKey), m.succKey), m.base, m.size)
           == s[..i] + Single(m.base, m.size) + s[j..]
  {
    RankSplits(s, base);
    var k := Rank(s, base);
    var i, j := MergeFrom(s, base, m), MergeTo(s, base, m);
    NeighboursRemoved(s, k, m.predKey.Some?, m.succKey.Some?);
    PutBetween(s[..i], s[j..], m.base, m.size);
  }

  /** Freeing replaces at most the two neighbours of the freed base by one region. */
  lemma FreeExplicit(s: seq<Region>, base: nat, size: nat)
    requires StrictlySorted(s)
    ensures var m := FreeMerge(s, base, size);
      var i, j := MergeFrom(s, base, m), MergeTo(s, base, m);
      && 0 <= i <= Rank(s, base) <= j <= |s|
      && FreeRegions(s, base, size) == s[..i] + Single(m.base, m.size) + s[j..]
  {
    RankSplits(s, base);
    ReplaceNeighbours(s, base, FreeMerge(s, base, size));
  }

  // ---------- Freeing a live block ----------

  /** No byte of `b` is in `f`; a zero-size `f` does not lie strictly inside `b`. */
  predicate Apart(f: Region, b: Region) { f.End() <= b.base || b.End() <= f.base }

  ghost predicate ClearOf(s: seq<Region>, b: Region) {
    forall i :: 0 <= i < |s| ==> Apart(s[i], b)
  }

  /** `b` is a block in use while `s` are the free regions. */
  ghost predicate InUse(s: seq<Region>, b: Region) {
    Separated(s) && b.size > 0 && ClearOf(s, b)
  }

  predicate Covers(s: seq<Region>, x: nat) {
    exists i :: 0 <= i < |s| && s[i].base <= x < s[i].End()
  }

  predicate Contains(b: Region, x: nat) { b.base <= x < b.End() }

  // The free regions around a block: those below its lower neighbour, the two neighbours, those above.
  datatype Around = Around(below: seq<Region>, pred: Option<Region>, succ: Option<Region>, above: seq<Region>)

  function AsSeq(o: Option<Region>): seq<Region> { if o.Some? then [o.value] else [] }

  function AroundOf(s: seq<Region>, addr: nat): Around {
    var k := Rank(s, addr);
    Around(if k == 0 then [] else s[..k - 1], Predecessor(s, addr), Successor(s, addr), if k == |s| then [] else s[k + 1..])
  }

  /** The neighbours of a block in use: one below it, one behind it or an exhausted one at its base. */
  predicate Neighbours(p: Option<Region>, z: Option<Region>, b: Region) {
    && b.size > 0
    && (p.Some? ==> p.value.base < b.base && p.value.End() <= b.base)
    && (z.Some? ==> b.End() <= z.value.base || z.value == Region(b.base, 0))
    && (p.Some? && z.Some? ==> p.value.End() < z.value.base)
  }

  predicate TouchesBelow(p: Option<Region>, b: Region) { p.Some? && p.value.End() == b.base }

  predicate EmptyAt(z: Option<Region>, b: Region) { z == Some(Region(b.base, 0)) }

  predicate TouchesAbove(z: Option<Region>, b: Region) { z.Some? && b.End() == z.value.base }

  /** What stands in the place of the two neighbours after the block is freed, as written. */
  function Refill(p: Option<Region>, z: Option<Region>, b: Region): seq<Region> {
    if EmptyAt(z, b) then AsSeq(p)
    else if TouchesBelow(p, b) then [Region(p.value.base, Max(p.value.size, b.size))] + AsSeq(z)
    else if TouchesAbove(z, b) then AsSeq(p) + [Region(b.base, b.size + z.value.size)]
    else AsSeq(p) + [b] + AsSeq(z)
  }

  /** The bytes `free` drops, as written. */
  function FreeLoss(p: Option<Region>, z: Option<Region>, b: Region): nat {
    if EmptyAt(z, b) then b.size
    else if TouchesBelow(p, b) then Min(p.value.size, b.size)
    else 0
  }

  function LossOf(s: seq<Region>, b: Region): nat {
    FreeLoss(Predecessor(s, b.base), Successor(s, b.base), b)
  }

  lemma AroundSplits(s: seq<Region>, b: Region)
    requires InUse(s, b)
    ensures StrictlySorted(s)
    ensures var r := AroundOf(s, b.base);
      && s == r.below + (AsSeq(r.pred) + AsSeq(r.succ)) + r.above
      && Neighbours(r.pred, r.succ, b)
      && (r.pred.None? ==> r.below == []) && (r.succ.None? ==> r.above == [])
  {
    RankSplits(s, b.base);
    var k := Rank(s, b.base);
    if k > 0 { assert Apart(s[k - 1], b); }
    if k < |s| { assert Apart(s[k], b); }
  }

  lemma MergeOfNeighbours(p: Option<Region>, z: Option<Region>, b: Region)
    requires Neighbours(p, z, b)
    ensures var m := MergeSuccessor(MergePredecessor(p, b.base, b.size), z);
      (if m.predKey.Some? then [] else AsSeq(p)) + Single(m.base, m.size) + (if m.succKey.Some? then [] else AsSeq(z))
        == Refill(p, z, b)
  {
  }

  lemma SliceBelow(s: seq<Region>, k: nat, without: bool)
    requires k <= |s| && (without ==> k > 0)
    ensures s[..if without then k - 1 else k] == (if k == 0 then [] else s[..k - 1]) + (if k == 0 || without then [] else [s[k - 1]])
  {
    if k > 0 && !without { assert s[..k] == s[..k - 1] + [s[k - 1]]; }
  }

  lemma SliceAbove(s: seq<Region>, k: nat, without: bool)
    requires k <= |s| && (without ==> k < |s|)
    ensures s[if without then k + 1 else k..] == (if k == |s| || without then [] else [s[k]]) + (if k == |s| then [] else s[k + 1..])
  {
    if k < |s| && !without { assert s[k..] == [s[k]] + s[k + 1..]; }
  }

  lemma SlicesAround(s: seq<Region>, addr: nat, noPred: bool, noSucc: bool)
    requires var k := Rank(s, addr); (noPred ==> k > 0) && (noSucc ==> k < |s|)
    ensures var r := AroundOf(s, addr);
      var k := Rank(s, addr);
      && s[..if noPred then k - 1 else k] == r.below + (if noPred then [] else AsSeq(r.pred))
      && s[if noSucc then k + 1 else k..] == (if noSucc then [] else AsSeq(r.succ)) + r.above
  {
    SliceBelow(s, Rank(s, addr), noPred);
    SliceAbove(s, Rank(s, addr), noSucc);
  }

  lemma GroupMiddle(below: seq<Region>, a: seq<Region>, mid: seq<Region>, c: seq<Region>, above: seq<Region>)
    ensures (below + a) + mid + (c + above) == below + (a + mid + c) + above
  {
  }

  /** The whole of `free` on a block in use: the neighbours are refilled, everything else stays. */
  lemma FreeRefills(s: seq<Region>, b: Region)
    requires InUse(s, b)
    ensures StrictlySorted(s)
    ensures var r := AroundOf(s, b.base);
      FreeRegions(s, b.base, b.size) == r.below + Refill(r.pred, r.succ, b) + r.above
  {
    AroundSplits(s, b);
    FreeExplicit(s, b.base, b.size);
    var r := AroundOf(s, b.base);
    MergeOfNeighbours(r.pred, r.succ, b);
    var m := FreeMerge(s, b.base, b.size);
    SlicesAround(s, b.base, m.predKey.Some?, m.succKey.Some?);
    GroupMiddle(r.below, if m.predKey.Some? then [] else AsSeq(r.pred), Single(m.base, m.size),
      if m.succKey.Some? then [] else AsSeq(r.succ), r.above);
  }

  // ---------- What the refill keeps ----------

  lemma RefillSeparated(p: Option<Region>, z: Option<Region>, b: Region)
    requires Neighbours(p, z, b)
    ensures Separated(Refill(p, z, b))
    ensures p.Some? ==> forall i :: 0 <= i < |Refill(p, z, b)| ==> p.value.base <= Refill(p, z, b)[i].base
    ensures z.Some? ==> forall i :: 0 <= i < |Refill(p, z, b)| ==> Refill(p, z, b)[i].End() <= z.value.End()
  {
  }

  lemma SeparatedReplace(below: seq<Region>, was: seq<Region>, put: seq<Region>, above: seq<Region>)
    requires Separated(below + was + above) && Separated(put)
    requires below != [] ==> was != [] && forall i :: 0 <= i < |put| ==> was[0].base <= put[i].base
    requires above != [] ==> was != [] && forall i :: 0 <= i < |put| ==> put[i].End() <= was[|was| - 1].End()
    ensures Separated(below + put + above)
  {
    var s, t := below + was + above, below + put + above;
    var n, m, k := |below|, |was|, |put|;
    forall i, j | 0 <= i < j < |t| ensures t[i].End() < t[j].base {
      if i < n {
        assert s[i] == t[i];
        if j < n {
          assert s[j] == t[j];
        } else if j < n + k {
          assert s[n] == was[0];
        } else {
          assert s[j - k + m] == t[j];
        }
      } else if j >= n + k {
        assert s[j - k + m] == t[j];
        if i >= n + k { assert s[i - k + m] == t[i]; } else { assert s[n + m - 1] == was[m - 1]; }
      }
    }
  }

  lemma FreeKeepsSeparation(s: seq<Region>, b: Region)
    requires InUse(s, b)
    ensures StrictlySorted(s) && Separated(FreeRegions(s, b.base, b.size))
  {
    AroundSplits(s, b);
    FreeRefills(s, b);
    var r := AroundOf(s, b.base);
    RefillSeparated(r.pred, r.succ, b);
    SeparatedReplace(r.below, AsSeq(r.pred) + AsSeq(r.succ), Refill(r.pred, r.succ, b), r.above);
  }

  lemma ClearOfParts(a: seq<Region>, b: seq<Region>, block: Region)
    ensures ClearOf(a + b, block) <==> ClearOf(a, block) && ClearOf(b, block)
  {
    var s := a + b;
    if ClearOf(s, block) {
      forall i | 0 <= i < |a| ensures Apart(a[i], block) { assert s[i] == a[i]; }
      forall i | 0 <= i < |b| ensures Apart(b[i], block) { assert s[|a| + i] == b[i]; }
    }
  }

  lemma RefillStaysClear(p: Option<Region>, z: Option<Region>, b: Region, other: Region)
    requires Neighbours(p, z, b) && other.size > 0 && Apart(b, other)
    requires p.Some? ==> Apart(p.value, other)
    requires z.Some? ==> Apart(z.value, other)
    ensures ClearOf(Refill(p, z, b), other)
  {
  }

  /** Freeing one block makes no byte of another block free. */
  lemma FreeStaysClear(s: seq<Region>, b: Region, other: Region)
    requires InUse(s, b) && InUse(s, other) && Apart(b, other)
    ensures StrictlySorted(s) && ClearOf(FreeRegions(s, b.base, b.size), other)
  {
    AroundSplits(s, b);
    FreeRefills(s, b);
    var r := AroundOf(s, b.base);
    var x := Refill(r.pred, r.succ, b);
    ClearOfParts(r.below + (AsSeq(r.pred) + AsSeq(r.succ)), r.above, other);
    ClearOfParts(r.below, AsSeq(r.pred) + AsSeq(r.succ), other);
    ClearOfParts(AsSeq(r.pred), AsSeq(r.succ), other);
    if r.pred.Some? { assert Apart(AsSeq(r.pred)[0], other); }
    if r.succ.Some? { assert Apart(AsSeq(r.succ)[0], other); }
    RefillStaysClear(r.pred, r.succ, b, other);
    ClearOfParts(r.below + x, r.above, other);
    ClearOfParts(r.below, x, other);
  }

  lemma CoversParts(a: seq<Region>, b: seq<Region>, x: nat)
    ensures Covers(a + b, x) <==> Covers(a, x) || Covers(b, x)
  {
    var s := a + b;
    if Covers(a, x) {
      var i :| 0 <= i < |a| && a[i].base <= x < a[i].End();
      assert s[i] == a[i];
    }
    if Covers(b, x) {
      var i :| 0 <= i < |b| && b[i].base <= x < b[i].End();
      assert s[|a| + i] == b[i];
    }
  }

  lemma CoversOne(r: Region, x: nat)
    ensures Covers([r], x) <==> Contains(r, x)
  {
    assert [r][0] == r;
  }

  lemma RefillCoversNothingNew(p: Option<Region>, z: Option<Region>, b: Region, x: nat)
    requires Neighbours(p, z, b) && Covers(Refill(p, z, b), x)
    ensures Covers(AsSeq(p), x) || Covers(AsSeq(z), x) || Contains(b, x)
  {
    if p.Some? { CoversOne(p.value, x); }
    if z.Some? { CoversOne(z.value, x); }
  }

  /** Every byte that is free afterwards was free before or belonged to the block. */
  lemma FreeCoversNothingNew(s: seq<Region>, b: Region, x: nat)
    requires InUse(s, b)
    ensures StrictlySorted(s)
    ensures Covers(FreeRegions(s, b.base, b.size), x) ==> Covers(s, x) || Contains(b, x)
  {
    AroundSplits(s, b);
    FreeRefills(s, b);
    var r := AroundOf(s, b.base);
    var f := Refill(r.pred, r.succ, b);
    CoversParts(r.below + f, r.above, x);
    CoversParts(r.below, f, x);
    if Covers(f, x) { RefillCoversNothingNew(r.pred, r.succ, b, x); }
    CoversParts(r.below + (AsSeq(r.pred) + AsSeq(r.succ)), r.above, x);
    CoversParts(r.below, AsSeq(r.pred) + AsSeq(r.succ), x);
    CoversParts(AsSeq(r.pred), AsSeq(r.succ), x);
  }

  lemma RefillAccounts(p: Option<Region>, z: Option<Region>, b: Region)
    requires Neighbours(p, z, b)
    ensures Total(Refill(p, z, b)) + FreeLoss(p, z, b) == Total(AsSeq(p)) + Total(AsSeq(z)) + b.size
  {
    var f := Refill(p, z, b);
    if EmptyAt(z, b) {
    } else if TouchesBelow(p, b) {
      TotalAdds([Region(p.value.base, Max(p.value.size, b.size))], AsSeq(z));
    } else if TouchesAbove(z, b) {
      TotalAdds(AsSeq(p), [Region(b.base, b.size + z.value.size)]);
    } else {
      TotalAdds(AsSeq(p) + [b], AsSeq(z));
      TotalAdds(AsSeq(p), [b]);
    }
  }

  /** Exact accounting of one `free`, as written. */
  lemma FreeAccounts(s: seq<Region>, b: Region)
    requires InUse(s, b)
    ensures StrictlySorted(s)
    ensures Total(FreeRegions(s, b.base, b.size)) + LossOf(s, b) == Total(s) + b.size
  {
    AroundSplits(s, b);
    FreeRefills(s, b);
    var r := AroundOf(s, b.base);
    var f := Refill(r.pred, r.succ, b);
    RefillAccounts(r.pred, r.succ, b);
    TotalAdds(r.below + f, r.above);
    TotalAdds(r.below, f);
    TotalAdds(r.below + (AsSeq(r.pred) + AsSeq(r.succ)), r.above);
    TotalAdds(r.below, AsSeq(r.pred) + AsSeq(r.succ));
    TotalAdds(AsSeq(r.pred), AsSeq(r.succ));
  }

  /** Only a neighbour can end where the block begins. */
  lemma OnlyNeighboursTouch(s: seq<Region>, b: Region, i: nat)
    requires InUse(s, b) && i < |s| && s[i].End() == b.base
    ensures i == Rank(s, b.base) - 1 || i == Rank(s, b.base)
  {
    RankSplits(s, b.base);
    var k := Rank(s, b.base);
    assert k > 0 ==> s[k - 1].base < b.base && Apart(s[k - 1], b);
    assert k < |s| ==> b.base <= s[k].base;
  }

  lemma LossNeedsTouchingNeighbour(p: Option<Region>, z: Option<Region>, b: Region)
    requires Neighbours(p, z, b)
    ensures FreeLoss(p, z, b) > 0 <==> (p.Some? && p.value.End() == b.base) || (z.Some? && z.value.End() == b.base)
  {
  }

  lemma LossIsAtTouchingNeighbour(s: seq<Region>, b: Region)
    requires InUse(s, b)
    ensures LossOf(s, b) > 0 <==> exists i :: 0 <= i < |s| && s[i].End() == b.base
  {
    AroundSplits(s, b);
    LossNeedsTouchingNeighbour(Predecessor(s, b.base), Successor(s, b.base), b);
    var k := Rank(s, b.base);
    if i :| 0 <= i < |s| && s[i].End() == b.base {
      OnlyNeighboursTouch(s, b, i);
    }
  }

  /** `free` gives back every byte if and only if no free region ends exactly where the block begins. */
  lemma FreeConservesExactlyWhen(s: seq<Region>, b: Region)
    requires InUse(s, b)
    ensures StrictlySorted(s)
    ensures Total(FreeRegions(s, b.base, b.size)) == Total(s) + b.size
       <==> forall i :: 0 <= i < |s| ==> s[i].End() != b.base
  {
    FreeAccounts(s, b);
    LossIsAtTouchingNeighbour(s, b);
  }

  /** The loss on a concrete input: the freed half of two adjacent halves disappears. */
  lemma FreeLosesAdjacentBlock()
    ensures InUse([Region(0, 100)], Region(100, 100))
    ensures StrictlySorted([Region(0, 100)])
    ensures FreeRegions([Region(0, 100)], 100, 100) == [Region(0, 100)]
  {
    var s := [Region(0, 100)];
    assert Rank(s, 100) == 1 by { assert Rank(s[1..], 100) == 0; }
    FreeExplicit(s, 100, 100);
  }

  /** The loss on a concrete input: an exhausted region at the freed base swallows the block. */
  lemma FreeLosesBlockAtEmptyRegion()
    ensures InUse([Region(10, 0)], Region(10, 10))
    ensures StrictlySorted([Region(10, 0)])
    ensures FreeRegions([Region(10, 0)], 10, 10) == []
  {
    FreeExplicit([Region(10, 0)], 10, 10);
  }
}
