/**
 * Whole runs from any memory areas, whether or not they leave gaps: when the keys stay unique, and
 * what holds even when they do not.
 */
module UncheckedRuns {
  import opened Wrappers
  import opened Regions
  import opened RegionTree
  import opened TreeShape
  import opened SizeIndex
  import opened FirstFit
  import opened Coalescing
  import opened TreeBoot
  import opened AllocatorRuns
  import opened UncheckedDeletion

  /** The tree and the blocks handed out; or the kernel has panicked in an `unwrap`. */
  datatype State = Running(tree: Tree, live: seq<Region>) | Panicked

  function Next(s: State, call: Call, phys: nat -> nat): State {
    if s.Panicked? then s
    else
      match call
      case AllocCall(q) =>
        if !q.Sound() then s
        else
          var (t, out) := Alloc(s.tree, q, phys);
          Running(t, if out.None? then s.live else s.live + [Region(out.value, q.size)])
      case FreeCall(i) =>
        if i >= |s.live| then s
        else
          var t := TryFree(s.tree, s.live[i].base, s.live[i].size);
          if t.None? then Panicked else Running(t.value, Without(s.live, i))
  }

  function RunFrom(s: State, calls: seq<Call>, phys: nat -> nat): State
    decreases |calls|
  {
    if calls == [] then s else RunFrom(Next(s, calls[0], phys), calls[1..], phys)
  }

  function BootState(areas: seq<Region>): State { Running(BootTree(areas), []) }

  // ---------- With gaps: the safe runs ----------

  function StateOf(s: System): State { Running(s.tree, s.live) }

  lemma NextIsStep(s: System, call: Call, phys: nat -> nat)
    requires Safe(s)
    ensures Next(StateOf(s), call, phys) == StateOf(Step(s, call, phys))
  {
    match call
    case AllocCall(q) =>
    case FreeCall(i) =>
      if i < |s.live| {
        SeparatedIsSorted(s.Free());
        TryFreeAgrees(s.tree, s.live[i].base, s.live[i].size);
      }
  }

  /** From a safe state no call panics, and the run is the one modelled. */
  lemma {:induction false} RunFromIsRun(s: System, calls: seq<Call>, phys: nat -> nat)
    requires Safe(s)
    ensures RunFrom(StateOf(s), calls, phys) == StateOf(Run(s, calls, phys))
    decreases |calls|
  {
    if calls == [] {
    } else {
      NextIsStep(s, calls[0], phys);
      StepIsSafe(s, calls[0], phys, 0);
      RunFromIsRun(Step(s, calls[0], phys), calls[1..], phys);
    }
  }

  // ---------- Without a gap: two nodes come to share a key ----------

  /** No two regions begin at one address. */
  ghost predicate UniqueKeys(s: seq<Region>) {
    forall i, j :: 0 <= i < j < |s| ==> s[i].base != s[j].base
  }

  /** A request for `d` bytes without alignment. */
  function Bytes(d: nat): Request { Request(d, 1, None, None) }

  lemma FitsUnaligned(r: Region, d: nat, phys: nat -> nat)
    requires 0 < d
    ensures AlignUp(r.base, 1) == r.base
    ensures Fits(r, Bytes(d), phys) <==> d <= r.size && phys(r.base) + d < ADDRESS_SPACE
  {
  }

  lemma TotalOfFront(s: seq<Region>, i: nat, p: nat, c: Region)
    requires i < p <= |s| && c.size < s[i].size
    ensures Total(s[i := c][..p]) < Total(s[..p])
  {
    var a, b := s[..p], s[i := c][..p];
    assert a[..i] == b[..i] && a[i + 1..] == b[i + 1..];
    TotalSplit(a, i);
    TotalSplit(b, i);
  }

  /** The call for `d` bytes repeated until region `p` is served, which then begins where region `q` does. */
  lemma {:induction false} RepeatUntilServed(t: Tree, live: seq<Region>, p: nat, q: nat, d: nat, phys: nat -> nat)
    returns (calls: seq<Call>)
    requires MaxExact(t) && p < q < |Inorder(t)|
    requires var s := Inorder(t);
      0 < d <= s[p].size && s[p].base + d == s[q].base && phys(s[p].base) + d < ADDRESS_SPACE
    ensures var u := RunFrom(Running(t, live), calls, phys); u.Running? && !UniqueKeys(Inorder(u.tree))
    decreases Total(Inorder(t)[..p])
  {
    var s := Inorder(t);
    var (u, out) := Alloc(t, Bytes(d), phys);
    AllocRefinesScan(t, Bytes(d), phys);
    AllocKeepsIndex(t, Bytes(d), phys);
    RecoloringKeepsContents(AllocRec(t, Bytes(d), phys).0, Black);
    FitsUnaligned(s[p], d, phys);
    var i := ScanIsFirstFit(s, Bytes(d), phys);
    assert s[p] in s;
    FitsUnaligned(s[i], d, phys);
    var next := Running(u, live + [Region(out.value, d)]);
    assert Next(Running(t, live), AllocCall(Bytes(d)), phys) == next;
    if i == p {
      calls := [AllocCall(Bytes(d))];
      assert RunFrom(next, [], phys) == next;
      assert Inorder(u)[p].base == Inorder(u)[q].base;
    } else {
      TotalOfFront(s, i, p, Carved(s[i], Bytes(d)));
      var rest := RepeatUntilServed(u, next.live, p, q, d, phys);
      calls := [AllocCall(Bytes(d))] + rest;
      assert calls[1..] == rest;
    }
  }

  /** Every non-empty area has physical addresses that fit 64 bits. */
  ghost predicate Backed(areas: seq<Region>, phys: nat -> nat) {
    forall r :: r in areas && r.size > 0 ==> phys(r.base) + r.size < ADDRESS_SPACE
  }

  lemma MissingGapEndsInSharedKey(areas: seq<Region>, phys: nat -> nat) returns (calls: seq<Call>)
    requires Backed(areas, phys) && !Gapped(areas)
    ensures var s := RunFrom(BootState(areas), calls, phys); s.Running? && !UniqueKeys(Inorder(s.tree))
  {
    BootIsSafe(areas);
    BootTreeIsOrdered(areas);
    var p, q := MissingGapStays(areas);
    var s := Inorder(BootTree(areas));
    SortedIsNotBehind(s, p, q);
    assert s[p] in s;
    if s[p].base == s[q].base {
      calls := [];
    } else {
      calls := RepeatUntilServed(BootTree(areas), [], p, q, s[q].base - s[p].base, phys);
    }
  }

  /** No call ever panics, and no two nodes ever share a key. */
  ghost predicate KeysStayUnique(areas: seq<Region>, phys: nat -> nat) {
    forall calls :: var s := RunFrom(BootState(areas), calls, phys); s.Running? && UniqueKeys(Inorder(s.tree))
  }

  /** Over all runs from boot the keys stay unique if and only if any two non-empty areas leave a gap. */
  lemma KeysStayUniqueExactlyWhen(areas: seq<Region>, phys: nat -> nat)
    requires Backed(areas, phys)
    ensures KeysStayUnique(areas, phys) <==> Gapped(areas)
  {
    if Gapped(areas) {
      forall calls
        ensures var s := RunFrom(BootState(areas), calls, phys); s.Running? && UniqueKeys(Inorder(s.tree))
      {
        RunFromIsRun(Boot(areas), calls, phys);
        RunKeeps(Boot(areas), calls, phys, 0);
        SeparatedIsSorted(Run(Boot(areas), calls, phys).Free());
      }
    } else {
      var calls := MissingGapEndsInSharedKey(areas, phys);
      var s := RunFrom(BootState(areas), calls, phys);
      assert !(s.Running? && UniqueKeys(Inorder(s.tree)));
    }
  }

  // ---------- What holds without gaps too ----------

  lemma UpdateInParts(a: seq<Region>, x: Region, b: seq<Region>, i: nat, c: Region)
    ensures i < |a| ==> (a + [x] + b)[i] == a[i] && (a + [x] + b)[i := c] == a[i := c] + [x] + b
    ensures (a + [x] + b)[|a|] == x && (a + [x] + b)[|a| := c] == a + [c] + b
    ensures i < |b| ==>
      (a + [x] + b)[|a| + 1 + i] == b[i] && (a + [x] + b)[|a| + 1 + i := c] == a + [x] + b[i := c]
  {
  }

  /** `u` is `t` with one region, which fits the request, carved; or `t` unchanged if nothing was found. */
  ghost predicate CarvedAt(s: seq<Region>, u: seq<Region>, out: Option<nat>, i: nat, q: Request, phys: nat -> nat)
    requires q.Sound()
  {
    if out.None? then u == s
    else i < |s| && Fits(s[i], q, phys) && out == Some(AlignUp(s[i].base, q.align)) && u == s[i := Carved(s[i], q)]
  }

  /** The left subtree serves nothing: it is not searched, or searched in vain. */
  ghost predicate LeftServesNothing(t: Tree, q: Request, phys: nat -> nat)
    requires q.Sound() && t.Node?
  {
    t.left.Node? && t.left.maxSize >= q.size ==>
      AllocRec(t.left, q, phys).1.None? && Inorder(AllocRec(t.left, q, phys).0) == Inorder(t.left)
  }

  lemma NodeIsCarved(t: Tree, q: Request, phys: nat -> nat)
    requires q.Sound() && t.Node? && LeftServesNothing(t, q, phys) && Fits(Region(t.base, t.size), q, phys)
    ensures AllocRec(t, q, phys).1 == Some(AlignUp(t.base, q.align))
    ensures Inorder(AllocRec(t, q, phys).0)
         == Inorder(t.left) + [Carved(Region(t.base, t.size), q)] + Inorder(t.right)
  {
  }

  lemma RightIsCarved(t: Tree, q: Request, phys: nat -> nat)
    requires q.Sound() && t.Node? && LeftServesNothing(t, q, phys) && !Fits(Region(t.base, t.size), q, phys)
    ensures var (r, out) :=
        if t.right.Node? && t.right.maxSize >= q.size then AllocRec(t.right, q, phys) else (t.right, None);
      && AllocRec(t, q, phys).1 == out
      && Inorder(AllocRec(t, q, phys).0) == Inorder(t.left) + [Region(t.base, t.size)] + Inorder(r)
  {
  }

  lemma CarvedBehind(a: seq<Region>, x: Region, b: seq<Region>, u: seq<Region>, out: Option<nat>, j: nat,
                     q: Request, phys: nat -> nat)
    requires q.Sound() && CarvedAt(b, u, out, j, q, phys)
    ensures CarvedAt(a + [x] + b, a + [x] + u, out, |a| + 1 + j, q, phys)
  {
    if out.Some? { UpdateInParts(a, x, b, j, Carved(b[j], q)); }
  }

  /** Where the left subtree serves nothing, the node is carved, or what the right subtree carves. */
  lemma CarvesFromNodeOn(t: Tree, q: Request, phys: nat -> nat, j: nat)
    requires q.Sound() && t.Node? && LeftServesNothing(t, q, phys)
    requires CarvedAt(Inorder(t.right), Inorder(AllocRec(t.right, q, phys).0), AllocRec(t.right, q, phys).1, j, q, phys)
    ensures var n := |Inorder(t.left)|;
      var i := if Fits(Region(t.base, t.size), q, phys) then n else n + 1 + j;
      CarvedAt(Inorder(t), Inorder(AllocRec(t, q, phys).0), AllocRec(t, q, phys).1, i, q, phys)
  {
    var a, x, b := Inorder(t.left), Region(t.base, t.size), Inorder(t.right);
    if Fits(x, q, phys) {
      NodeIsCarved(t, q, phys);
      UpdateInParts(a, x, b, |a|, Carved(x, q));
    } else {
      RightIsCarved(t, q, phys);
      if t.right.Node? && t.right.maxSize >= q.size {
        var (r, out) := AllocRec(t.right, q, phys);
        CarvedBehind(a, x, b, Inorder(r), out, j, q, phys);
      }
    }
  }

  /** Whatever the index says, allocation carves at most one region, and the block comes out of it. */
  lemma {:induction false} AllocCarvesOne(t: Tree, q: Request, phys: nat -> nat) returns (i: nat)
    requires q.Sound()
    ensures CarvedAt(Inorder(t), Inorder(AllocRec(t, q, phys).0), AllocRec(t, q, phys).1, i, q, phys)
  {
    i := 0;
    if t.Nil? {
    } else {
      var k := AllocCarvesOne(t.left, q, phys);
      var j := AllocCarvesOne(t.right, q, phys);
      var a, x, b := Inorder(t.left), Region(t.base, t.size), Inorder(t.right);
      if t.left.Node? && t.left.maxSize >= q.size && AllocRec(t.left, q, phys).1.Some? {
        i := k;
        UpdateInParts(a, x, b, i, Carved(a[k], q));
      } else {
        i := if Fits(x, q, phys) then |a| else |a| + 1 + j;
        CarvesFromNodeOn(t, q, phys, j);
      }
    }
  }

  /** Every byte in play. */
  predicate Held(s: State, x: nat) {
    s.Running? && (Covers(Inorder(s.tree), x) || Covers(s.live, x))
  }

  lemma AllocHoldsNothingNew(s: State, q: Request, phys: nat -> nat, x: nat)
    requires s.Running? && q.Sound() && Held(Next(s, AllocCall(q), phys), x)
    ensures Held(s, x)
  {
    var free := Inorder(s.tree);
    var (u, out) := AllocRec(s.tree, q, phys);
    var i := AllocCarvesOne(s.tree, q, phys);
    RecoloringKeepsContents(u, Black);
    if out.Some? {
      var b := Region(out.value, q.size);
      CoversParts(s.live, [b], x);
      CoversOne(b, x);
      FitMeansUsable(free[i], q, phys);
      CarveCovers(free, i, Carved(free[i], q), b, x);
    }
  }

  lemma FreeHoldsNothingNew(s: State, n: nat, phys: nat -> nat, x: nat)
    requires s.Running? && n < |s.live| && Held(Next(s, FreeCall(n), phys), x)
    ensures Held(s, x)
  {
    WithoutParts(s.live, n, x);
    if Covers(Inorder(TryFree(s.tree, s.live[n].base, s.live[n].size).value), x) {
      TryFreeCoversNothingNew(s.tree, s.live[n], x);
    }
  }

  lemma {:induction false} RunHoldsNothingNew(s: State, calls: seq<Call>, phys: nat -> nat, x: nat)
    requires Held(RunFrom(s, calls, phys), x)
    ensures Held(s, x)
    decreases |calls|
  {
    if calls == [] {
    } else {
      RunHoldsNothingNew(Next(s, calls[0], phys), calls[1..], phys, x);
      match calls[0]
      case AllocCall(q) => if q.Sound() { AllocHoldsNothingNew(s, q, phys, x); }
      case FreeCall(n) => if n < |s.live| { FreeHoldsNothingNew(s, n, phys, x); }
    }
  }

  /** With or without gaps: a byte that is free or handed out is one of the areas'. */
  lemma RunsStayInTheAreas(areas: seq<Region>, calls: seq<Call>, phys: nat -> nat, x: nat)
    ensures var s := RunFrom(BootState(areas), calls, phys);
      s.Running? && (Covers(Inorder(s.tree), x) || Covers(s.live, x)) ==> Covers(areas, x)
  {
    if Held(RunFrom(BootState(areas), calls, phys), x) {
      RunHoldsNothingNew(BootState(areas), calls, phys, x);
      BootIsSafe(areas);
    }
  }

  // ---------- A byte whose block is never given back ----------

  /** No call of the run frees a block that contains byte `x`. */
  ghost predicate Kept(s: State, calls: seq<Call>, phys: nat -> nat, x: nat)
    decreases |calls|
  {
    calls != [] ==>
      && (calls[0].FreeCall? && s.Running? && calls[0].block < |s.live| ==> !Contains(s.live[calls[0].block], x))
      && Kept(Next(s, calls[0], phys), calls[1..], phys, x)
  }

  /** Byte `x` is not free, and of the live blocks exactly those among `blocks` contain it. */
  ghost predicate OwnedBy(s: State, blocks: seq<Region>, x: nat) {
    s.Running? ==> !Covers(Inorder(s.tree), x) && forall b: Region :: Contains(b, x) ==> (b in s.live <==> b in blocks)
  }

  lemma AllocKeepsOwner(s: State, q: Request, phys: nat -> nat, blocks: seq<Region>, x: nat)
    requires s.Running? && OwnedBy(s, blocks, x)
    ensures OwnedBy(Next(s, AllocCall(q), phys), blocks, x)
  {
    if q.Sound() {
      var free := Inorder(s.tree);
      var (u, out) := AllocRec(s.tree, q, phys);
      var i := AllocCarvesOne(s.tree, q, phys);
      RecoloringKeepsContents(u, Black);
      if out.Some? {
        FitMeansUsable(free[i], q, phys);
        CarveCovers(free, i, Carved(free[i], q), Region(out.value, q.size), x);
      }
    }
  }

  lemma WithoutMember(s: seq<Region>, n: nat, b: Region)
    requires n < |s| && b != s[n]
    ensures b in Without(s, n) <==> b in s
  {
    assert s == s[..n] + [s[n]] + s[n + 1..];
  }

  lemma FreeKeepsOwner(s: State, n: nat, phys: nat -> nat, blocks: seq<Region>, x: nat)
    requires s.Running? && OwnedBy(s, blocks, x) && (n < |s.live| ==> !Contains(s.live[n], x))
    ensures OwnedBy(Next(s, FreeCall(n), phys), blocks, x)
  {
    var t := Next(s, FreeCall(n), phys);
    if n < |s.live| && t.Running? {
      if Covers(Inorder(t.tree), x) { TryFreeCoversNothingNew(s.tree, s.live[n], x); }
      forall b: Region | Contains(b, x) ensures b in t.live <==> b in s.live { WithoutMember(s.live, n, b); }
    }
  }

  /** Over any run, with or without gaps, a byte that is not given back keeps its owner and no other gets it. */
  lemma {:induction false} RunKeepsOwner(s: State, calls: seq<Call>, phys: nat -> nat, blocks: seq<Region>, x: nat)
    requires OwnedBy(s, blocks, x) && Kept(s, calls, phys, x)
    ensures OwnedBy(RunFrom(s, calls, phys), blocks, x)
    decreases |calls|
  {
    if calls == [] {
    } else {
      if s.Running? {
        match calls[0]
        case AllocCall(q) => AllocKeepsOwner(s, q, phys, blocks, x);
        case FreeCall(n) => FreeKeepsOwner(s, n, phys, blocks, x);
      }
      RunKeepsOwner(Next(s, calls[0], phys), calls[1..], phys, blocks, x);
    }
  }
}
