/** Whole runs of the allocator: booting from the memory areas, then any mix of alloc and free. */
module AllocatorRuns {
  import opened Wrappers
  import opened Arithmetic
  import opened Regions
  import opened RegionTree
  import TreeShape
  import opened TreeInsertion
  import opened SizeIndex
  import opened FirstFit
  import opened Coalescing
  import opened RegionAllocator
  import opened TreeBoot

  /** The tree, the blocks handed out and not yet freed, and the bytes that belong to neither. */
  datatype System = System(tree: Tree, live: seq<Region>, lost: nat) {
    function Free(): seq<Region> { Inorder(tree) }
  }

  datatype Call = AllocCall(request: Request) | FreeCall(block: nat)

  ghost predicate PairwiseApart(live: seq<Region>) {
    forall i, j :: 0 <= i < j < |live| ==> Apart(live[i], live[j])
  }

  ghost predicate Within(s: seq<Region>, limit: nat) {
    forall i :: 0 <= i < |s| ==> s[i].End() <= limit
  }

  /** Blocks in use are disjoint from each other and from what is free. */
  ghost predicate Disjoint(free: seq<Region>, live: seq<Region>) {
    && Separated(free) && PairwiseApart(live)
    && forall i :: 0 <= i < |live| ==> live[i].size > 0 && ClearOf(free, live[i])
  }

  ghost predicate Safe(s: System) {
    LlrbUpToRoot(s.tree) && MaxExact(s.tree) && Disjoint(s.Free(), s.live)
  }

  /** Memory split into free regions, live blocks and lost bytes. */
  datatype Memory = Memory(free: seq<Region>, live: seq<Region>, lost: nat)

  function MemoryOf(s: System): Memory { Memory(s.Free(), s.live, s.lost) }

  predicate Owned(m: Memory, x: nat) { Covers(m.free, x) || Covers(m.live, x) }

  function Accounted(m: Memory): nat { Total(m.free) + Total(m.live) + m.lost }

  ghost predicate AllWithin(m: Memory, limit: nat) { Within(m.free, limit) && Within(m.live, limit) }

  /** What every call keeps: disjointness, the sum of all bytes, and that no byte comes from nowhere. */
  ghost predicate Follows(m: Memory, n: Memory, limit: nat) {
    && Disjoint(n.free, n.live)
    && Accounted(n) == Accounted(m)
    && (forall x :: Owned(n, x) ==> Owned(m, x))
    && (AllWithin(m, limit) ==> AllWithin(n, limit))
  }

  /** The bytes in front of the block that alignment makes `alloc` give up. */
  function Padding(s: seq<Region>, q: Request, phys: nat -> nat): nat
    requires q.Sound()
  {
    if s == [] then 0
    else if Fits(s[0], q, phys) then AlignUp(s[0].base, q.align) - s[0].base
    else Padding(s[1..], q, phys)
  }

  function Without<T>(s: seq<T>, i: nat): seq<T>
    requires i < |s|
  {
    s[..i] + s[i + 1..]
  }

  /** One call; a request the allocator's callers may not make, or a block that is not live, changes nothing. */
  function Step(s: System, call: Call, phys: nat -> nat): System
    requires Safe(s)
  {
    match call
    case AllocCall(q) =>
      if !q.Sound() then s
      else
        var (t, out) := Alloc(s.tree, q, phys);
        if out.None? then s.(tree := t)
        else System(t, s.live + [Region(out.value, q.size)], s.lost + Padding(s.Free(), q, phys))
    case FreeCall(i) =>
      if i >= |s.live| then s
      else
        SeparatedIsSorted(s.Free());
        var b := s.live[i];
        System(RegionAllocator.Free(s.tree, b.base, b.size), Without(s.live, i), s.lost + LossOf(s.Free(), b))
  }

  // ---------- alloc ----------

  lemma {:induction false} PaddingIsServed(s: seq<Region>, i: nat, q: Request, phys: nat -> nat)
    requires q.Sound() && ServedFrom(s, i, q, phys)
    ensures Padding(s, q, phys) == AlignUp(s[i].base, q.align) - s[i].base
  {
    if i == 0 {
    } else {
      assert !Fits(s[0], q, phys);
      assert s[1..][i - 1] == s[i];
      forall j | 0 <= j < i - 1 ensures !Fits(s[1..][j], q, phys) { assert s[1..][j] == s[j + 1]; }
      PaddingIsServed(s[1..], i - 1, q, phys);
    }
  }

  /** `c` and the block `b` are what is left of region `r` and what was taken from it. */
  predicate Splits(r: Region, c: Region, b: Region) {
    r.base <= b.base && b.size > 0 && b.End() == c.base && c.End() == r.End()
  }

  lemma CarveKeeps(s: seq<Region>, i: nat, c: Region, b: Region)
    requires Separated(s) && i < |s| && Splits(s[i], c, b)
    ensures Separated(s[i := c]) && ClearOf(s[i := c], b)
    ensures Total(s[i := c]) + b.size + (b.base - s[i].base) == Total(s)
  {
    TotalSplit(s, i);
    TotalSplit(s[i := c], i);
    var t := s[i := c];
    forall j | 0 <= j < |t| ensures Apart(t[j], b) {
      if j < i { assert s[j].End() < s[i].base; }
      if i < j { assert s[i].End() < s[j].base; }
    }
  }

  lemma CarveStaysClear(s: seq<Region>, i: nat, c: Region, b: Region, other: Region)
    requires i < |s| && Splits(s[i], c, b) && other.size > 0 && ClearOf(s, other)
    ensures ClearOf(s[i := c], other) && Apart(other, b)
  {
    assert Apart(s[i], other);
  }

  lemma CarveCovers(s: seq<Region>, i: nat, c: Region, b: Region, x: nat)
    requires i < |s| && Splits(s[i], c, b)
    ensures Covers(s[i := c], x) || Contains(b, x) ==> Covers(s, x)
  {
    if Contains(b, x) {
      assert s[i].base <= x < s[i].End();
    } else if Covers(s[i := c], x) {
      var j :| 0 <= j < |s| && s[i := c][j].base <= x < s[i := c][j].End();
      assert s[j].base <= x < s[j].End();
    }
  }

  lemma AllocMemory(m: Memory, i: nat, c: Region, b: Region, limit: nat)
    requires Disjoint(m.free, m.live) && i < |m.free| && Splits(m.free[i], c, b)
    ensures Follows(m, Memory(m.free[i := c], m.live + [b], m.lost + (b.base - m.free[i].base)), limit)
  {
    var free, live := m.free[i := c], m.live + [b];
    CarveKeeps(m.free, i, c, b);
    TotalAdds(m.live, [b]);
    forall j | 0 <= j < |m.live| ensures ClearOf(free, m.live[j]) && Apart(m.live[j], b) {
      CarveStaysClear(m.free, i, c, b, m.live[j]);
    }
    forall x | Covers(free, x) || Covers(live, x) ensures Owned(m, x) {
      CarveCovers(m.free, i, c, b, x);
      CoversParts(m.live, [b], x);
      CoversOne(b, x);
    }
  }

  lemma AllocStep(s: System, q: Request, phys: nat -> nat, limit: nat)
    requires Safe(s) && q.Sound()
    ensures var t := Step(s, AllocCall(q), phys);
      LlrbUpToRoot(t.tree) && MaxExact(t.tree) && Follows(MemoryOf(s), MemoryOf(t), limit)
  {
    var free := s.Free();
    AllocRefinesRegions(s.tree, q, phys);
    var i := ScanIsFirstFit(free, q, phys);
    if ScanAddress(free, q, phys).Some? {
      FitMeansUsable(free[i], q, phys);
      PaddingIsServed(free, i, q, phys);
      AllocMemory(MemoryOf(s), i, Carved(free[i], q), Region(AlignUp(free[i].base, q.align), q.size), limit);
    }
  }

  // ---------- free ----------

  lemma WithoutAt<T>(s: seq<T>, n: nat, i: nat)
    requires n < |s| && i < |Without(s, n)|
    ensures Without(s, n)[i] == s[if i < n then i else i + 1]
  {
  }

  /** The blocks that stay are apart from each other and from the one that goes. */
  lemma WithoutKeepsApart(live: seq<Region>, n: nat)
    requires PairwiseApart(live) && n < |live|
    ensures PairwiseApart(Without(live, n))
    ensures forall b :: b in Without(live, n) ==> b in live && Apart(live[n], b)
  {
    var rest := Without(live, n);
    forall i, j | 0 <= i < j < |rest| ensures Apart(rest[i], rest[j]) {
      WithoutAt(live, n, i);
      WithoutAt(live, n, j);
    }
    forall b | b in rest ensures b in live && Apart(live[n], b) {
      var i :| 0 <= i < |rest| && rest[i] == b;
      WithoutAt(live, n, i);
    }
  }

  lemma FreeKeepsDisjoint(free: seq<Region>, live: seq<Region>, n: nat)
    requires Disjoint(free, live) && n < |live|
    ensures StrictlySorted(free)
    ensures Disjoint(FreeRegions(free, live[n].base, live[n].size), Without(live, n))
  {
    var b := live[n];
    FreeKeepsSeparation(free, b);
    WithoutKeepsApart(live, n);
    forall c | c in Without(live, n) ensures c.size > 0 && ClearOf(FreeRegions(free, b.base, b.size), c) {
      var k :| 0 <= k < |live| && live[k] == c;
      assert c.size > 0 && ClearOf(free, c);
      FreeStaysClear(free, b, c);
    }
  }

  lemma WithoutParts(live: seq<Region>, n: nat, x: nat)
    requires n < |live|
    ensures Covers(live, x) <==> Covers(Without(live, n), x) || Contains(live[n], x)
    ensures Total(live) == Total(Without(live, n)) + live[n].size
  {
    var a, b, c := live[..n], [live[n]], live[n + 1..];
    assert live == a + (b + c);
    CoversParts(a, b + c, x);
    CoversParts(b, c, x);
    CoversParts(a, c, x);
    CoversOne(live[n], x);
    TotalSplit(live, n);
    TotalAdds(a, c);
  }

  lemma WithinParts(a: seq<Region>, b: seq<Region>, limit: nat)
    ensures Within(a + b, limit) <==> Within(a, limit) && Within(b, limit)
  {
    var s := a + b;
    if Within(s, limit) {
      forall i | 0 <= i < |a| ensures a[i].End() <= limit { assert s[i] == a[i]; }
      forall i | 0 <= i < |b| ensures b[i].End() <= limit { assert s[|a| + i] == b[i]; }
    }
  }

  lemma RefillWithin(p: Option<Region>, z: Option<Region>, b: Region, limit: nat)
    requires Neighbours(p, z, b) && b.End() <= limit && Within(AsSeq(p), limit) && Within(AsSeq(z), limit)
    ensures Within(Refill(p, z, b), limit)
  {
    if p.Some? { assert AsSeq(p)[0].End() <= limit; }
    if z.Some? { assert AsSeq(z)[0].End() <= limit; }
  }

  lemma FreeStaysWithin(s: seq<Region>, b: Region, limit: nat)
    requires InUse(s, b) && Within(s, limit) && b.End() <= limit
    ensures StrictlySorted(s) && Within(FreeRegions(s, b.base, b.size), limit)
  {
    AroundSplits(s, b);
    FreeRefills(s, b);
    var r := AroundOf(s, b.base);
    var f := Refill(r.pred, r.succ, b);
    WithinParts(r.below + (AsSeq(r.pred) + AsSeq(r.succ)), r.above, limit);
    WithinParts(r.below, AsSeq(r.pred) + AsSeq(r.succ), limit);
    WithinParts(AsSeq(r.pred), AsSeq(r.succ), limit);
    RefillWithin(r.pred, r.succ, b, limit);
    WithinParts(r.below + f, r.above, limit);
    WithinParts(r.below, f, limit);
  }

  function MemoryAfterFree(m: Memory, n: nat): Memory
    requires StrictlySorted(m.free) && n < |m.live|
  {
    var b := m.live[n];
    Memory(FreeRegions(m.free, b.base, b.size), Without(m.live, n), m.lost + LossOf(m.free, b))
  }

  lemma FreeIsAccounted(m: Memory, n: nat)
    requires n < |m.live| && InUse(m.free, m.live[n])
    ensures StrictlySorted(m.free) && Accounted(MemoryAfterFree(m, n)) == Accounted(m)
  {
    FreeAccounts(m.free, m.live[n]);
    WithoutParts(m.live, n, 0);
  }

  lemma FreeOwnsNothingNew(m: Memory, n: nat, x: nat)
    requires n < |m.live| && InUse(m.free, m.live[n])
    ensures StrictlySorted(m.free)
    ensures Owned(MemoryAfterFree(m, n), x) ==> Owned(m, x)
  {
    FreeCoversNothingNew(m.free, m.live[n], x);
    WithoutParts(m.live, n, x);
  }

  lemma FreeMemory(m: Memory, n: nat, limit: nat)
    requires Disjoint(m.free, m.live) && n < |m.live|
    ensures StrictlySorted(m.free) && Follows(m, MemoryAfterFree(m, n), limit)
  {
    FreeKeepsDisjoint(m.free, m.live, n);
    FreeIsAccounted(m, n);
    forall x | Owned(MemoryAfterFree(m, n), x) ensures Owned(m, x) { FreeOwnsNothingNew(m, n, x); }
    if AllWithin(m, limit) {
      FreeStaysWithin(m.free, m.live[n], limit);
    }
  }

  lemma FreeCallIsMemoryFree(s: System, n: nat, phys: nat -> nat)
    requires Safe(s) && n < |s.live|
    ensures StrictlySorted(s.Free())
    ensures var t := Step(s, FreeCall(n), phys);
      LlrbUpToRoot(t.tree) && MaxExact(t.tree) && MemoryOf(t) == MemoryAfterFree(MemoryOf(s), n)
  {
    var b := s.live[n];
    SeparatedIsSorted(s.Free());
    FreeRefinesRegions(s.tree, b.base, b.size);
  }

  lemma FreeStep(s: System, n: nat, phys: nat -> nat, limit: nat)
    requires Safe(s) && n < |s.live|
    ensures var t := Step(s, FreeCall(n), phys);
      LlrbUpToRoot(t.tree) && MaxExact(t.tree) && Follows(MemoryOf(s), MemoryOf(t), limit)
  {
    FreeCallIsMemoryFree(s, n, phys);
    FreeMemory(MemoryOf(s), n, limit);
  }

  // ---------- Runs ----------

  function Run(s: System, calls: seq<Call>, phys: nat -> nat): (t: System)
    requires Safe(s)
    ensures Safe(t)
    decreases |calls|
  {
    if calls == [] then s
    else
      StepIsSafe(s, calls[0], phys, 0);
      Run(Step(s, calls[0], phys), calls[1..], phys)
  }

  lemma StepIsSafe(s: System, call: Call, phys: nat -> nat, limit: nat)
    requires Safe(s)
    ensures Safe(Step(s, call, phys)) && Follows(MemoryOf(s), MemoryOf(Step(s, call, phys)), limit)
  {
    match call
    case AllocCall(q) => if q.Sound() { AllocStep(s, q, phys, limit); }
    case FreeCall(i) => if i < |s.live| { FreeStep(s, i, phys, limit); }
  }

  lemma {:induction false} RunKeeps(s: System, calls: seq<Call>, phys: nat -> nat, limit: nat)
    requires Safe(s)
    ensures Follows(MemoryOf(s), MemoryOf(Run(s, calls, phys)), limit)
    decreases |calls|
  {
    if calls == [] {
    } else {
      StepIsSafe(s, calls[0], phys, limit);
      RunKeeps(Step(s, calls[0], phys), calls[1..], phys, limit);
    }
  }

  // ---------- From boot ----------

  function Boot(areas: seq<Region>): (s: System)
    requires Gapped(areas)
    ensures Safe(s)
  {
    BootIsSafe(areas);
    System(BootTree(areas), [], 0)
  }

  lemma BootStaysWithin(areas: seq<Region>, limit: nat)
    requires Within(areas, limit)
    ensures Within(Inorder(BootTree(areas)), limit)
  {
    BootIsSafe(areas);
    var s := Inorder(BootTree(areas));
    forall i | 0 <= i < |s| ensures s[i].End() <= limit {
      assert s[i] in s;
      var j :| 0 <= j < |areas| && areas[j] == s[i];
    }
  }

  lemma BootOwnsTheAreas(areas: seq<Region>)
    requires Gapped(areas)
    ensures var m := MemoryOf(Boot(areas));
      Accounted(m) == Total(areas) && forall x :: Owned(m, x) ==> Covers(areas, x)
  {
    BootIsSafe(areas);
  }

  lemma FollowsFromAreas(areas: seq<Region>, m: Memory, n: Memory, limit: nat)
    requires Accounted(m) == Total(areas) && forall x :: Owned(m, x) ==> Covers(areas, x)
    requires Within(areas, limit) ==> AllWithin(m, limit)
    requires Follows(m, n, limit)
    ensures Total(n.free) + Total(n.live) + n.lost == Total(areas)
    ensures forall x :: Covers(n.free, x) || Covers(n.live, x) ==> Covers(areas, x)
    ensures Within(areas, limit) ==> Within(n.free, limit) && Within(n.live, limit)
  {
    forall x | Covers(n.free, x) || Covers(n.live, x) ensures Covers(areas, x) {
      assert Owned(n, x) && Owned(m, x);
    }
  }

  lemma HeightBound(t: Tree)
    requires LlrbUpToRoot(t)
    ensures Pow2(Height(t)) <= (|Inorder(t)| + 1) * (|Inorder(t)| + 1)
  {
    HeightIsLogarithmic(t);
    TreeShape.CountIsLength(t);
  }

  /**
   * Safety and exact accounting over every run: blocks never overlap each other or free memory,
   * every byte in play comes from the areas, and the bytes add up.
   */
  lemma RunsAreSafe(areas: seq<Region>, calls: seq<Call>, phys: nat -> nat, limit: nat)
    requires Gapped(areas)
    ensures var s := Run(Boot(areas), calls, phys);
      && Safe(s)
      && Total(s.Free()) + Total(s.live) + s.lost == Total(areas)
      && (forall x :: Covers(s.Free(), x) || Covers(s.live, x) ==> Covers(areas, x))
      && (Within(areas, limit) ==> Within(s.Free(), limit) && Within(s.live, limit))
      && Pow2(Height(s.tree)) <= (|s.Free()| + 1) * (|s.Free()| + 1)
  {
    var boot := Boot(areas);
    BootOwnsTheAreas(areas);
    if Within(areas, limit) { BootStaysWithin(areas, limit); }
    RunKeeps(boot, calls, phys, limit);
    var s := Run(boot, calls, phys);
    FollowsFromAreas(areas, MemoryOf(boot), MemoryOf(s), limit);
    HeightBound(s.tree);
  }

  /** In a safe state no byte has two owners. */
  lemma OneOwner(s: System, i: nat, j: nat, x: nat)
    requires Safe(s) && i < |s.live| && Contains(s.live[i], x)
    ensures !Covers(s.Free(), x)
    ensures j < |s.live| && Contains(s.live[j], x) ==> i == j
  {
    var free := s.Free();
    forall k | 0 <= k < |free| ensures !(free[k].base <= x < free[k].End()) {
      assert Apart(free[k], s.live[i]);
    }
    if j < |s.live| && Contains(s.live[j], x) {
      assert Contains(s.live[i], x);
    }
  }
}
