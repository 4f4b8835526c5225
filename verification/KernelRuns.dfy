/** Whole runs of the in-place allocator: every call does what the model of runs says, in 64-bit arithmetic. */
module KernelRuns {
  import opened Arithmetic
  import opened Wrappers
  import opened Regions
  import T = RegionTree
  import opened FirstFit
  import opened TreeBoot
  import RegionAllocator
  import opened AllocatorRuns
  import opened UncheckedRuns
  import opened TreeNodes
  import opened TreeAlloc
  import opened BumpArena
  import opened Coalescing

  /** Requests that stay inside the 64-bit range on regions that end at or below `limit`. */
  ghost predicate Callable(call: Call, phys: nat -> nat, limit: nat) {
    match call
    case FreeCall(_) => true
    case AllocCall(q) =>
      && q.Sound() && PowerOfTwo(q.align) && (q.boundary.Some? ==> PowerOfTwo(q.boundary.value))
      && q.size + q.align <= ADDRESS_SPACE && limit + q.align <= ADDRESS_SPACE
      && forall x: nat :: x <= limit ==> phys(x) + q.size < ADDRESS_SPACE
  }

  /** The largest number of nodes the tree has after any call of a run. */
  ghost function Peak(s: System, calls: seq<Call>, phys: nat -> nat): nat
    requires Safe(s)
    decreases |calls|
  {
    if calls == [] then 0
    else
      StepIsSafe(s, calls[0], phys, 0);
      var t := Step(s, calls[0], phys);
      Max(T.Count(t.tree), Peak(t, calls[1..], phys))
  }

  lemma CallableIsRepresentable(s: seq<Region>, q: Request, phys: nat -> nat, limit: nat)
    requires Callable(AllocCall(q), phys, limit) && Within(s, limit)
    ensures Representable(s, q, phys)
  {
    forall r | r in s
      ensures r.End() + q.align <= ADDRESS_SPACE
      ensures var at := AlignUp(r.base, q.align); at + q.size <= r.End() ==> phys(at) + q.size < ADDRESS_SPACE
    {
      var i :| 0 <= i < |s| && s[i] == r;
      assert s[i].End() <= limit;
    }
  }

  lemma AllocIsStep(s: System, q: Request, phys: nat -> nat)
    requires Safe(s) && q.Sound()
    ensures var (t, out) := FirstFit.Alloc(s.tree, q, phys);
      var u := Step(s, AllocCall(q), phys);
      u.tree == t && u.live == if out.Some? then s.live + [Region(out.value, q.size)] else s.live
  {
  }

  lemma FreeIsStep(s: System, i: nat, phys: nat -> nat)
    requires Safe(s) && i < |s.live|
    ensures RegionAllocator.Ordered(s.tree)
    ensures var u := Step(s, FreeCall(i), phys);
      u.tree == RegionAllocator.Free(s.tree, s.live[i].base, s.live[i].size) && u.live == Without(s.live, i)
  {
    SeparatedIsSorted(s.Free());
  }

  /** One call on the object is one step of the model. */
  method Perform(a: RBTreeAlloc, call: Call, live: seq<Region>, ghost s: System, ghost limit: nat) returns (newLive: seq<Region>)
    requires a.Valid() && Safe(s) && s.tree == a.tree && s.live == live
    requires Callable(call, a.phys, limit) && AllWithin(MemoryOf(s), limit) && limit < ADDRESS_SPACE
    modifies a`root, a`freelist, a`boxes, a`tree, a`spare, a`taken, Nodes(a.boxes), a.spare
    ensures a.Valid() && a.tree == Step(s, call, a.phys).tree && newLive == Step(s, call, a.phys).live
    ensures a.taken == Max(old(a.taken), T.Count(a.tree))
    ensures forall n :: n in Nodes(a.boxes) || n in a.spare ==> n in old(Nodes(a.boxes)) || n in old(a.spare) || fresh(n)
  {
    newLive := live;
    NodesCount(a.root, a.boxes, a.tree);
    match call {
      case AllocCall(q) =>
        CallableIsRepresentable(s.Free(), q, a.phys, limit);
        AllocIsStep(s, q, a.phys);
        var out := a.Alloc(q.size, q.align, q.maxAddress, q.boundary);
        NodesCount(a.root, a.boxes, a.tree);
        if out.Some? {
          newLive := live + [Region(out.value, q.size)];
        }
      case FreeCall(i) =>
        if i < |live| {
          assert s.live[i].End() <= limit;
          FreeIsStep(s, i, a.phys);
          a.Free(live[i].base, live[i].size);
          newLive := Without(live, i);
        }
    }
  }

  lemma NextCall(s: System, calls: seq<Call>, i: nat, phys: nat -> nat, limit: nat)
    requires Safe(s) && AllWithin(MemoryOf(s), limit) && i < |calls|
    ensures var t := Step(s, calls[i], phys);
      && Safe(t) && AllWithin(MemoryOf(t), limit)
      && Run(s, calls[i..], phys) == Run(t, calls[i + 1..], phys)
      && Peak(s, calls[i..], phys) == Max(T.Count(t.tree), Peak(t, calls[i + 1..], phys))
  {
    StepIsSafe(s, calls[i], phys, limit);
    assert calls[i..][0] == calls[i] && calls[i..][1..] == calls[i + 1..];
  }

  /**
   * A run of calls on the object, from any blocks in use: tree and live blocks are those of the modelled run, and the nodes
   * taken from the bump arena are exactly as many as the tree ever had at once.
   */
  method RunCalls(a: RBTreeAlloc, calls: seq<Call>, start: seq<Region>, ghost s: System, ghost limit: nat)
    returns (live: seq<Region>)
    requires a.Valid() && Safe(s) && s.tree == a.tree && s.live == start
    requires forall i :: 0 <= i < |calls| ==> Callable(calls[i], a.phys, limit)
    requires AllWithin(MemoryOf(s), limit) && limit < ADDRESS_SPACE
    modifies a`root, a`freelist, a`boxes, a`tree, a`spare, a`taken, Nodes(a.boxes), a.spare
    ensures a.Valid() && a.tree == Run(s, calls, a.phys).tree && live == Run(s, calls, a.phys).live
    ensures a.taken == Max(old(a.taken), Peak(s, calls, a.phys))
  {
    live := start;
    ghost var now := s;
    for i := 0 to |calls|
      invariant a.Valid() && Safe(now) && now.tree == a.tree && now.live == live
      invariant AllWithin(MemoryOf(now), limit)
      invariant Run(now, calls[i..], a.phys) == Run(s, calls, a.phys)
      invariant Max(a.taken, Peak(now, calls[i..], a.phys)) == Max(old(a.taken), Peak(s, calls, a.phys))
      invariant forall n :: n in Nodes(a.boxes) || n in a.spare ==> n in old(Nodes(a.boxes)) || n in old(a.spare) || fresh(n)
    {
      NextCall(now, calls, i, a.phys, limit);
      live := Perform(a, calls[i], live, now, limit);
      now := Step(now, calls[i], a.phys);
    }
  }

  /** An area too small for the arena does not begin where a large one does. */
  ghost predicate ArenaFits(areas: seq<Region>) {
    forall i, j :: 0 <= i < |areas| && 0 <= j < |areas| && areas[i].size < MIN_AREA_SIZE <= areas[j].size ==>
      areas[i].base != areas[j].base
  }

  lemma ArenaAreaIsOne(areas: seq<Region>, k: nat)
    requires NoOverlap(areas) && ArenaFits(areas) && k < |areas| && areas[k].size >= MIN_AREA_SIZE
    ensures forall i :: 0 <= i < |areas| && areas[i].base == areas[k].base ==> i == k && areas[i].size >= BUMP_HEAP_SIZE
  {
    forall i | 0 <= i < |areas| && areas[i].base == areas[k].base ensures i == k {
      assert areas[i].size >= MIN_AREA_SIZE;
      assert Contains(areas[i], areas[k].base) && Contains(areas[k], areas[k].base);
    }
  }

  lemma AroundStaysWithin(areas: seq<Region>, arena: Region, limit: nat)
    requires Within(areas, limit)
    requires forall i :: 0 <= i < |areas| && areas[i].base == arena.base ==> areas[i].size >= arena.size
    ensures Within(AroundArena(areas, arena), limit)
  {
    var s := AroundArena(areas, arena);
    forall i | 0 <= i < |s| ensures s[i].End() <= limit { assert areas[i].End() <= limit; }
  }

  /** Exactly the arena is taken out of the areas. */
  lemma AroundArenaTotal(areas: seq<Region>, k: nat)
    requires NoOverlap(areas) && ArenaFits(areas) && k < |areas| && areas[k].size >= MIN_AREA_SIZE
    ensures forall i :: 0 <= i < |areas| && areas[i].base == areas[k].base ==> areas[i].size >= BUMP_HEAP_SIZE
    ensures Total(AroundArena(areas, Region(areas[k].base, BUMP_HEAP_SIZE))) + BUMP_HEAP_SIZE == Total(areas)
  {
    ArenaAreaIsOne(areas, k);
    var s := AroundArena(areas, Region(areas[k].base, BUMP_HEAP_SIZE));
    assert s[..k] == areas[..k] && s[k + 1..] == areas[k + 1..];
    TotalSplit(areas, k);
    TotalSplit(s, k);
  }

  /** Memory maps the kernel can boot from safely: what is left once the arena is taken out has gaps. */
  ghost predicate Bootable(areas: seq<Region>, limit: nat) {
    && NoOverlap(areas) && ArenaFits(areas) && Within(areas, limit) && limit < ADDRESS_SPACE
    && forall k: nat :: HostsArena(areas, k) ==> Gapped(AroundArena(areas, Region(areas[k].base, BUMP_HEAP_SIZE)))
  }

  /** What the arena, free memory and the blocks in use have to do with each other. */
  ghost predicate Partitioned(areas: seq<Region>, arena: Region, free: seq<Region>, live: seq<Region>, lost: nat) {
    && Disjoint(free, live)
    && (forall x :: Contains(arena, x) ==> !Covers(free, x) && !Covers(live, x))
    && Total(free) + Total(live) + lost + arena.size == Total(areas)
  }

  lemma RunIsPartitioned(areas: seq<Region>, k: nat, calls: seq<Call>, phys: nat -> nat, limit: nat)
    requires Bootable(areas, limit) && HostsArena(areas, k)
    ensures forall i :: 0 <= i < |areas| && areas[i].base == areas[k].base ==> areas[i].size >= BUMP_HEAP_SIZE
    ensures var arena := Region(areas[k].base, BUMP_HEAP_SIZE);
      var around := AroundArena(areas, arena);
      && Gapped(around) && AllWithin(MemoryOf(Boot(around)), limit)
      && var s := Run(Boot(around), calls, phys); Partitioned(areas, arena, s.Free(), s.live, s.lost)
  {
    ArenaAreaIsOne(areas, k);
    var arena := Region(areas[k].base, BUMP_HEAP_SIZE);
    var around := AroundArena(areas, arena);
    AroundStaysWithin(areas, arena, limit);
    BootStaysWithin(around, limit);
    RunsAreSafe(around, calls, phys, limit);
    RunFromIsRun(Boot(around), calls, phys);
    var s := Run(Boot(around), calls, phys);
    forall x | Contains(arena, x) ensures !Covers(s.Free(), x) && !Covers(s.live, x) {
      TreeBlocksMissTheArena(areas, k, calls, phys, x);
    }
    AroundArenaTotal(areas, k);
  }

  /** Tree, blocks, lost bytes and nodes taken are those of the modelled run of `calls`, booted around an arena in area `k`. */
  ghost predicate IsRunOf(areas: seq<Region>, k: nat, arena: Region, calls: seq<Call>, phys: nat -> nat,
                          tree: T.Tree, live: seq<Region>, lost: nat, taken: nat)
  {
    && HostsArena(areas, k) && arena == Region(areas[k].base, BUMP_HEAP_SIZE)
    && (forall i :: 0 <= i < |areas| && areas[i].base == arena.base ==> areas[i].size >= arena.size)
    && Gapped(AroundArena(areas, arena))
    && var boot := Boot(AroundArena(areas, arena));
       var s := Run(boot, calls, phys);
       tree == s.tree && live == s.live && lost == s.lost && taken == Max(T.Count(boot.tree), Peak(boot, calls, phys))
  }

  /** A new object, booted around the arena; all it may change later is new as well. */
  method BootAround(areas: array<Region>, arena: Region, phys: nat -> nat) returns (a: RBTreeAlloc)
    requires forall i :: 0 <= i < areas.Length && areas[i].base == arena.base ==> areas[i].size >= arena.size
    modifies areas
    ensures fresh(a) && fresh(Nodes(a.boxes)) && fresh(a.spare) && a.phys == phys
    ensures a.tree == BootTree(AroundArena(old(areas[..]), arena)) && a.taken == T.Count(a.tree)
    ensures a.Linked() && (a.Valid() <==> Gapped(AroundArena(old(areas[..]), arena)))
  {
    a := new RBTreeAlloc(phys);
    InitTree(a, areas, arena);
  }

  /**
   * From the memory map to the end of a run: place the arena, boot the tree around it, and serve the calls.
   * What the object holds then is what the model of runs says; the blocks in use are disjoint from each
   * other, from free memory and from the arena, and all bytes of the areas are accounted for.
   */
  method BootAndRun(areas: array<Region>, calls: seq<Call>, phys: nat -> nat, ghost limit: nat)
    returns (a: RBTreeAlloc?, live: seq<Region>, arena: Option<Region>, ghost lost: nat)
    requires Bootable(areas[..], limit) && forall i :: 0 <= i < |calls| ==> Callable(calls[i], phys, limit)
    modifies areas
    ensures arena.None? <==> forall r :: r in old(areas[..]) ==> r.size < MIN_AREA_SIZE
    ensures arena.Some? ==> a != null && a.Valid()
    ensures arena.Some? ==> exists k: nat ::
      IsRunOf(old(areas[..]), k, arena.value, calls, phys, a.tree, live, lost, a.taken)
    ensures arena.Some? ==> Partitioned(old(areas[..]), arena.value, T.Inorder(a.tree), live, lost)
  {
    a, live, arena, lost := null, [], None, 0;
    ghost var was := areas[..];
    var area := FindArea(areas[..]);
    if area.Some? {
      ghost var k: nat :| HostsArena(was, k) && area.value == was[k];
      RunIsPartitioned(was, k, calls, phys, limit);
      arena := Some(Region(area.value.base, BUMP_HEAP_SIZE));
      var booted := BootAround(areas, arena.value, phys);
      ghost var s := Boot(AroundArena(was, arena.value));
      live := RunCalls(booted, calls, [], s, limit);
      a := booted;
      lost := Run(s, calls, phys).lost;
      assert IsRunOf(was, k, arena.value, calls, phys, a.tree, live, lost, a.taken);
    }
  }
}
