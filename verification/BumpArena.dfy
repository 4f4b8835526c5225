/** The bump arena that holds the tree's own nodes, and booting the tree around it. */
module BumpArena {
  import opened Wrappers
  import opened Arithmetic
  import opened Regions
  import T = RegionTree
  import opened FirstFit
  import opened Coalescing
  import opened TreeBoot
  import opened AllocatorRuns
  import opened UncheckedDeletion
  import opened UncheckedRuns
  import opened TreeNodes
  import opened TreeAlloc

  const MEGABYTE: nat := 1024 * 1024
  const MIN_AREA_SIZE: nat := 5 * MEGABYTE
  const BUMP_HEAP_SIZE: nat := 4 * MEGABYTE

  /** Area `k` is the one the arena goes into. */
  ghost predicate HostsArena(areas: seq<Region>, k: nat) {
    && k < |areas| && areas[k].size >= 0x50_0000
    && forall j :: 0 <= j < k ==> areas[j].size < 0x50_0000
  }

  /** The arena goes into the first area that is large enough. */
  method FindArea(areas: seq<Region>) returns (area: Option<Region>)
    ensures area.Some? ==> exists i: nat :: HostsArena(areas, i) && area.value == areas[i]
    ensures area.None? ==> forall i :: 0 <= i < |areas| ==> areas[i].size < MIN_AREA_SIZE
  {
    area := None;
    for i := 0 to |areas|
      invariant forall j :: 0 <= j < i ==> areas[j].size < MIN_AREA_SIZE
    {
      if areas[i].size >= MIN_AREA_SIZE {
        return Some(areas[i]);
      }
    }
  }

  function SaturatingAdd(a: nat, b: nat): nat { Min(a + b, ADDRESS_SPACE - 1) }

  lemma RoundingUpByRemainder(x: nat, a: nat)
    requires a > 0
    ensures AlignUp(x, a) == if x % a == 0 then x else x + (a - x % a)
  {
    var q := x / a;
    assert x == q * a + x % a;
    if x % a == 0 {
      DivModUnique(x + (a - 1), a, q, a - 1);
    } else {
      assert (q + 1) * a == q * a + a;
      DivModUnique(x + (a - 1), a, q + 1, x % a - 1);
    }
  }

  class BumpAlloc {
    var base: nat
    var size: nat
    var next: nat
    ghost var blocks: seq<Region>  // every block handed out, in order

    /** Every block lies inside the arena, behind all earlier ones and below `next`. */
    ghost predicate Valid()
      reads this
    {
      && base <= next <= base + size < ADDRESS_SPACE - 1
      && (forall i :: 0 <= i < |blocks| ==> base <= blocks[i].base && blocks[i].End() <= next)
      && (forall i, j :: 0 <= i < j < |blocks| ==> blocks[i].End() <= blocks[j].base)
    }

    constructor (area: Region)
      requires area.size >= MIN_AREA_SIZE && area.End() < ADDRESS_SPACE
      ensures Valid() && base == next == area.base && size == 0x40_0000 && blocks == []
    {
      base, size, next := area.base, BUMP_HEAP_SIZE, area.base;
      blocks := [];
    }

    /** The block is the first aligned one behind all others, and is refused only if it does not fit. */
    method Alloc(size: nat, align: nat) returns (out: Option<nat>)
      requires Valid() && align > 0 && next + align < ADDRESS_SPACE
      modifies this`next, this`blocks
      ensures Valid()
      ensures var at := AlignUp(old(next), align);
        if at + size <= base + this.size then
          out == Some(at) && next == at + size && blocks == old(blocks) + [Region(at, size)]
        else
          out == None && next == old(next) && blocks == old(blocks)
    {
      var current := next;
      RoundingUpByRemainder(current, align);
      if current % align != 0 {
        current := current + (align - current % align);
      }
      var newNext := SaturatingAdd(current, size);
      if newNext > base + this.size {
        out := None;
      } else {
        next := newNext;
        blocks := blocks + [Region(current, size)];
        out := Some(current);
      }
    }
  }

  // ---------- Booting the tree around the arena ----------

  /** The areas with the arena taken off the front of the one it was put into. */
  function AroundArena(areas: seq<Region>, arena: Region): (s: seq<Region>)
    requires forall i :: 0 <= i < |areas| && areas[i].base == arena.base ==> areas[i].size >= arena.size
    ensures |s| == |areas|
  {
    seq(|areas|, i requires 0 <= i < |areas| =>
      if areas[i].base == arena.base then Region(areas[i].base + arena.size, areas[i].size - arena.size) else areas[i])
  }

  method ShrinkAreas(areas: array<Region>, arena: Region)
    requires forall i :: 0 <= i < areas.Length && areas[i].base == arena.base ==> areas[i].size >= arena.size
    modifies areas
    ensures areas[..] == AroundArena(old(areas[..]), arena)
  {
    for i := 0 to areas.Length
      invariant forall j :: i <= j < areas.Length ==> areas[j] == old(areas[j])
      invariant forall j :: 0 <= j < i ==> areas[j] == AroundArena(old(areas[..]), arena)[j]
    {
      if areas[i].base == arena.base {
        areas[i] := Region(areas[i].base + arena.size, areas[i].size - arena.size);
      }
    }
  }

  /** With an empty freelist, one new node for one area. */
  method InsertArea(a: RBTreeAlloc, r: Region)
    requires a.Linked() && a.spare == [] && a.taken == T.Count(a.tree)
    modifies a`root, a`freelist, a`boxes, a`tree, a`spare, a`taken, Nodes(a.boxes)
    ensures a.Linked() && a.spare == [] && a.taken == T.Count(a.tree) && a.tree == T.Insert(old(a.tree), r)
    ensures forall n :: n in Nodes(a.boxes) ==> n in old(Nodes(a.boxes)) || fresh(n)
  {
    a.Insert(r);
    NodesCount(a.root, a.boxes, a.tree);
  }

  method InsertAll(a: RBTreeAlloc, areas: seq<Region>)
    requires a.Valid() && a.tree == T.Nil && a.taken == 0
    modifies a`root, a`freelist, a`boxes, a`tree, a`spare, a`taken
    ensures a.Linked() && a.tree == BootTree(areas) && a.taken == T.Count(a.tree)
    ensures a.spare == [] && forall n :: n in Nodes(a.boxes) ==> fresh(n)
  {
    NodesCount(a.root, a.boxes, a.tree);
    for i := 0 to |areas|
      invariant a.Linked() && a.tree == BootTree(areas[..i])
      invariant a.spare == [] && a.taken == T.Count(a.tree)
      invariant forall n :: n in Nodes(a.boxes) ==> fresh(n)
    {
      assert areas[..i + 1][..i] == areas[..i];
      InsertArea(a, areas[i]);
    }
    assert areas[..|areas|] == areas;
  }

  /** `TreeAlloc::init`: shrink the area the arena is in, then insert them all, one new node each. */
  method InitTree(a: RBTreeAlloc, areas: array<Region>, arena: Region)
    requires a.Valid() && a.tree == T.Nil && a.taken == 0
    requires forall i :: 0 <= i < areas.Length && areas[i].base == arena.base ==> areas[i].size >= arena.size
    modifies areas, a`root, a`freelist, a`boxes, a`tree, a`spare, a`taken
    ensures a.Linked() && areas[..] == AroundArena(old(areas[..]), arena)
    ensures a.tree == BootTree(areas[..]) && a.taken == T.Count(a.tree)
    ensures a.Valid() <==> Gapped(areas[..])
    ensures a.spare == [] && forall n :: n in Nodes(a.boxes) ==> fresh(n)
  {
    BootIsSafe(AroundArena(areas[..], arena));
    NodesExist(a.boxes);
    ShrinkAreas(areas, arena);
    InsertAll(a, areas[..]);
  }

  // ---------- The arena and the tree never meet ----------

  /** No byte is in two areas. */
  ghost predicate NoOverlap(areas: seq<Region>) {
    forall i, j, x :: 0 <= i < j < |areas| && Contains(areas[i], x) ==> !Contains(areas[j], x)
  }

  /** Shrinking takes exactly the bytes of the arena out of the areas. */
  lemma AroundArenaCovers(areas: seq<Region>, k: nat, size: nat, x: nat)
    requires NoOverlap(areas) && k < |areas| && areas[k].size >= size
    requires forall i :: 0 <= i < |areas| && areas[i].base == areas[k].base ==> areas[i].size >= size
    ensures Covers(AroundArena(areas, Region(areas[k].base, size)), x) <==>
              Covers(areas, x) && !Contains(Region(areas[k].base, size), x)
  {
    var arena := Region(areas[k].base, size);
    var s := AroundArena(areas, arena);
    if Covers(s, x) {
      var i :| 0 <= i < |s| && s[i].base <= x < s[i].End();
      assert Contains(areas[i], x);
      if i != k { assert !Contains(areas[k], x); }
    }
    if Covers(areas, x) && !Contains(arena, x) {
      var i :| 0 <= i < |areas| && areas[i].base <= x < areas[i].End();
      assert s[i].base <= x < s[i].End();
    }
  }

  /** The areas may be shrunk around an arena at the front of area `k`. */
  ghost predicate HasRoom(areas: seq<Region>, k: nat) {
    && NoOverlap(areas) && k < |areas|
    && forall i :: 0 <= i < |areas| && areas[i].base == areas[k].base ==> areas[i].size >= BUMP_HEAP_SIZE
  }

  function ArenaOf(areas: seq<Region>, k: nat): Region
    requires k < |areas|
  {
    Region(areas[k].base, BUMP_HEAP_SIZE)
  }

  /**
   * Blocks from the arena may be given to the tree after the switch, since deallocation goes by the mode
   * of the moment. A byte of the arena whose block is not, among them every byte of the tree's own nodes,
   * is never free in the tree and never in a block that the tree hands out: over every run that does not
   * panic, even where areas touch and the tree's keys repeat.
   */
  lemma ArenaIsNeverHandedOut(areas: seq<Region>, k: nat, blocks: seq<Region>, calls: seq<Call>, phys: nat -> nat, x: nat)
    requires HasRoom(areas, k) && Contains(ArenaOf(areas, k), x)
    requires Kept(Running(BootTree(AroundArena(areas, ArenaOf(areas, k))), blocks), calls, phys, x)
    ensures OwnedBy(RunFrom(Running(BootTree(AroundArena(areas, ArenaOf(areas, k))), blocks), calls, phys), blocks, x)
  {
    var around := AroundArena(areas, ArenaOf(areas, k));
    AroundArenaCovers(areas, k, BUMP_HEAP_SIZE, x);
    BootIsSafe(around);
    RunKeepsOwner(Running(BootTree(around), blocks), calls, phys, blocks, x);
  }

  /** Where no arena block is live at the switch, no block of the tree ever meets the arena. */
  lemma TreeBlocksMissTheArena(areas: seq<Region>, k: nat, calls: seq<Call>, phys: nat -> nat, x: nat)
    requires HasRoom(areas, k) && Contains(ArenaOf(areas, k), x)
    ensures var s := RunFrom(BootState(AroundArena(areas, ArenaOf(areas, k))), calls, phys);
      s.Running? ==> !Covers(T.Inorder(s.tree), x) && !Covers(s.live, x)
  {
    var around := AroundArena(areas, ArenaOf(areas, k));
    AroundArenaCovers(areas, k, BUMP_HEAP_SIZE, x);
    RunsStayInTheAreas(around, calls, phys, x);
  }

  /** Blocks as the bump allocator hands them out: non-empty, inside the arena, one behind the other. */
  ghost predicate BumpBlocks(blocks: seq<Region>, arena: Region) {
    && (forall i :: 0 <= i < |blocks| ==>
          blocks[i].size > 0 && arena.base <= blocks[i].base && blocks[i].End() <= arena.End())
    && (forall i, j :: 0 <= i < j < |blocks| ==> blocks[i].End() <= blocks[j].base)
  }

  lemma BumpBlocksAreClear(areas: seq<Region>, k: nat, blocks: seq<Region>)
    requires HasRoom(areas, k) && BumpBlocks(blocks, ArenaOf(areas, k))
    ensures forall i :: 0 <= i < |blocks| ==> ClearOf(T.Inorder(BootTree(AroundArena(areas, ArenaOf(areas, k)))), blocks[i])
  {
    var around := AroundArena(areas, ArenaOf(areas, k));
    BootIsSafe(around);
    var s := T.Inorder(BootTree(around));
    forall i, j | 0 <= i < |blocks| && 0 <= j < |s| ensures Apart(s[j], blocks[i]) {
      assert s[j] in s;
      var x := Max(s[j].base, blocks[i].base);
      AroundArenaCovers(areas, k, BUMP_HEAP_SIZE, x);
      if Contains(s[j], x) { CoveredByMember(around, s[j], x); }
    }
  }

  /**
   * The switch with arena blocks still live: from there, every run that may free those blocks too keeps all
   * blocks disjoint and accounts for the bytes of the areas and of the arena blocks.
   */
  lemma SwitchIsSafe(areas: seq<Region>, k: nat, blocks: seq<Region>, calls: seq<Call>, phys: nat -> nat)
    requires HasRoom(areas, k) && BumpBlocks(blocks, ArenaOf(areas, k))
    requires Gapped(AroundArena(areas, ArenaOf(areas, k)))
    ensures var around := AroundArena(areas, ArenaOf(areas, k));
      var start := System(BootTree(around), blocks, 0);
      && Safe(start)
      && var s := Run(start, calls, phys);
         Safe(s) && Total(s.Free()) + Total(s.live) + s.lost == Total(around) + Total(blocks)
  {
    var around := AroundArena(areas, ArenaOf(areas, k));
    BootIsSafe(around);
    BumpBlocksAreClear(areas, k, blocks);
    var start := System(BootTree(around), blocks, 0);
    assert PairwiseApart(blocks);
    RunKeeps(start, calls, phys, 0);
    assert Accounted(MemoryOf(start)) == Total(around) + Total(blocks);
    assert Accounted(MemoryOf(Run(start, calls, phys))) == Accounted(MemoryOf(start));
  }
}
