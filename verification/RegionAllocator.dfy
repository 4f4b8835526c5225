/** `RBTreeAlloc` as a function on trees: insert, free and alloc, each tied to the ordered regions. */
module RegionAllocator {
  import opened Wrappers
  import opened Regions
  import opened RegionTree
  import opened TreeShape
  import opened TreeDeletion
  import opened TreeInsertion
  import opened SizeIndex
  import opened FirstFit
  import opened Coalescing

  /** What every reachable tree satisfies. */
  ghost predicate Ordered(t: Tree) {
    LlrbUpToRoot(t) && MaxExact(t) && StrictlySorted(Inorder(t))
  }

  // ---------- Looking up the neighbours ----------

  function PredecessorIn(t: Tree, addr: nat, best: Option<Region>): Option<Region> {
    if t.Nil? then best
    else if t.base < addr then PredecessorIn(t.right, addr, Some(Region(t.base, t.size)))
    else PredecessorIn(t.left, addr, best)
  }

  function SuccessorIn(t: Tree, addr: nat, best: Option<Region>): Option<Region> {
    if t.Nil? then best
    else if t.base >= addr then SuccessorIn(t.left, addr, Some(Region(t.base, t.size)))
    else SuccessorIn(t.right, addr, best)
  }

  function OrElse(o: Option<Region>, best: Option<Region>): Option<Region> {
    if o.Some? then o else best
  }

  lemma {:induction false} RankOfParts(a: seq<Region>, x: Region, b: seq<Region>, addr: nat)
    requires StrictlySorted(a + [x] + b)
    ensures Rank(a + [x] + b, addr) == if x.base < addr then |a| + 1 + Rank(b, addr) else Rank(a, addr)
  {
    var s := a + [x] + b;
    if a == [] {
      assert s == [x] + b && s[1..] == b;
    } else {
      assert s[1..] == a[1..] + [x] + b && s[0] == a[0] && s[|a|] == x;
      RankOfParts(a[1..], x, b, addr);
    }
  }

  lemma NeighboursOfParts(a: seq<Region>, x: Region, b: seq<Region>, addr: nat)
    requires StrictlySorted(a + [x] + b)
    ensures Predecessor(a + [x] + b, addr) ==
      if x.base < addr then OrElse(Predecessor(b, addr), Some(x)) else Predecessor(a, addr)
    ensures Successor(a + [x] + b, addr) ==
      if x.base >= addr then OrElse(Successor(a, addr), Some(x)) else Successor(b, addr)
  {
    RankOfParts(a, x, b, addr);
    SortedParts(a, x, b);
  }

  lemma {:induction false} PredecessorInIsPredecessor(t: Tree, addr: nat, best: Option<Region>)
    requires StrictlySorted(Inorder(t))
    ensures PredecessorIn(t, addr, best) == OrElse(Predecessor(Inorder(t), addr), best)
  {
    if t.Nil? {
    } else {
      NodeParts(t);
      NeighboursOfParts(Inorder(t.left), Region(t.base, t.size), Inorder(t.right), addr);
      PredecessorInIsPredecessor(t.right, addr, Some(Region(t.base, t.size)));
      PredecessorInIsPredecessor(t.left, addr, best);
    }
  }

  lemma {:induction false} SuccessorInIsSuccessor(t: Tree, addr: nat, best: Option<Region>)
    requires StrictlySorted(Inorder(t))
    ensures SuccessorIn(t, addr, best) == OrElse(Successor(Inorder(t), addr), best)
  {
    if t.Nil? {
    } else {
      NodeParts(t);
      NeighboursOfParts(Inorder(t.left), Region(t.base, t.size), Inorder(t.right), addr);
      SuccessorInIsSuccessor(t.left, addr, Some(Region(t.base, t.size)));
      SuccessorInIsSuccessor(t.right, addr, best);
    }
  }

  // ---------- Removing and inserting ----------

  lemma RemoveKeepsOrder(root: Tree, key: nat)
    requires Ordered(root)
    ensures Deletable(root, key)
    ensures Ordered(Delete(root, key)) && Inorder(Delete(root, key)) == RemoveKey(Inorder(root), key)
  {
    DeleteShrinks(root, key);
    DeleteContents(root, key);
    DeleteKeepsIndex(root, key);
    RemoveKeySorted(Inorder(root), key);
  }

  /** Removes the node with the key, if there is a key; the tree stays in order. */
  function RemoveIfAny(root: Tree, key: Option<nat>): (r: Tree)
    requires Ordered(root)
    ensures Ordered(r) && Inorder(r) == RemoveOption(Inorder(root), key)
  {
    if key.None? then root
    else
      RemoveKeepsOrder(root, key.value);
      Delete(root, key.value)
  }

  lemma InsertIsInOrder(root: Tree, r: Region)
    requires LlrbUpToRoot(root) && MaxExact(root) && Sorted(Inorder(root))
    ensures var t := Insert(root, r);
      && LlrbUpToRoot(t) && MaxExact(t)
      && Inorder(t) == (if r.size == 0 then Inorder(root) else InsertInOrder(Inorder(root), r))
      && (r.size > 0 ==> !IsRed(t))
  {
    var n := InsertNode(root, NewNode(r.base, r.size));
    InsertExpands(root, r.base, r.size);
    InsertContents(root, NewNode(r.base, r.size));
    InsertKeepsIndex(root, r.base, r.size);
    RecoloringKeepsContents(n, Black);
  }

  // ---------- free and alloc ----------

  lemma LookupsAreNeighbours(root: Tree, base: nat)
    requires StrictlySorted(Inorder(root))
    ensures PredecessorIn(root, base, None) == Predecessor(Inorder(root), base)
    ensures SuccessorIn(root, base, None) == Successor(Inorder(root), base)
    ensures PredecessorIn(root, base, None).Some? ==> PredecessorIn(root, base, None).value.base < base
    ensures SuccessorIn(root, base, None).Some? ==> base <= SuccessorIn(root, base, None).value.base
  {
    PredecessorInIsPredecessor(root, base, None);
    SuccessorInIsSuccessor(root, base, None);
    RankSplits(Inorder(root), base);
  }

  function TreeMerge(root: Tree, base: nat, size: nat): (m: Merge)
    requires StrictlySorted(Inorder(root))
    ensures m == FreeMerge(Inorder(root), base, size)
  {
    LookupsAreNeighbours(root, base);
    MergeSuccessor(MergePredecessor(PredecessorIn(root, base, None), base, size), SuccessorIn(root, base, None))
  }

  function Free(root: Tree, base: nat, size: nat): Tree
    requires Ordered(root)
  {
    var m := TreeMerge(root, base, size);
    Insert(RemoveIfAny(RemoveIfAny(root, m.predKey), m.succKey), Region(m.base, m.size))
  }

  /** `free` on the tree is `FreeRegions` on the sequence it stands for. */
  lemma FreeRefinesRegions(root: Tree, base: nat, size: nat)
    requires Ordered(root)
    ensures LlrbUpToRoot(Free(root, base, size)) && MaxExact(Free(root, base, size))
    ensures Inorder(Free(root, base, size)) == FreeRegions(Inorder(root), base, size)
  {
    var m := TreeMerge(root, base, size);
    InsertIsInOrder(RemoveIfAny(RemoveIfAny(root, m.predKey), m.succKey), Region(m.base, m.size));
  }

  /** `alloc` on the tree is the linear scan on the sequence it stands for. */
  lemma AllocRefinesRegions(root: Tree, q: Request, phys: nat -> nat)
    requires q.Sound() && MaxExact(root) && LlrbUpToRoot(root)
    ensures var (t, out) := Alloc(root, q, phys);
      && LlrbUpToRoot(t) && MaxExact(t) && !IsRed(t)
      && out == ScanAddress(Inorder(root), q, phys)
      && Inorder(t) == ScanRegions(Inorder(root), q, phys)
      && (out.None? ==> t == Recolored(root, Black))
      && Count(t) == Count(root)
  {
    var (t, out) := AllocRec(root, q, phys);
    AllocRefinesScan(root, q, phys);
    AllocKeepsIndex(root, q, phys);
    AllocKeepsShape(root, q, phys);
    SameShapeIsAsGood(root, t);
    if out.None? { AllocNoneKeepsTree(root, q, phys); }
    RecoloringKeepsContents(t, Black);
  }

  /** A `free` that merges with a neighbour leaves no more nodes in the tree than before. */
  lemma MergingDoesNotGrow(root: Tree, base: nat, size: nat)
    requires Ordered(root)
    ensures var m := TreeMerge(root, base, size);
      m.predKey.Some? || m.succKey.Some? ==> Count(Free(root, base, size)) <= Count(root)
  {
    FreeRefinesRegions(root, base, size);
    FreeExplicit(Inorder(root), base, size);
    CountIsLength(root);
    CountIsLength(Free(root, base, size));
  }

  /** `alloc` serves the request from this region at this address, the region's first aligned one. */
  ghost predicate ServedBy(r: Region, at: nat, q: Request, phys: nat -> nat)
    requires q.Sound()
  {
    at % q.align == 0 && r.base <= at < r.base + q.align && ServesAt(r, at, q, phys)
  }

  /**
   * A block that `alloc` hands out is at the first aligned address of a free region and serves the request
   * there: it lies in the region, ends physically at or below the limit and stays in one boundary window.
   * `alloc` refuses exactly when no region's first aligned address would serve.
   */
  lemma AllocBlockIsUsable(root: Tree, q: Request, phys: nat -> nat)
    requires q.Sound() && MaxExact(root) && LlrbUpToRoot(root)
    ensures var out := Alloc(root, q, phys).1;
      && (out.None? <==> forall r, at: nat :: r in Inorder(root) ==> !ServedBy(r, at, q, phys))
      && (out.Some? ==> exists r :: r in Inorder(root) && ServedBy(r, out.value, q, phys))
  {
    AllocRefinesRegions(root, q, phys);
    var s := Inorder(root);
    var i := ScanIsFirstFit(s, q, phys);
    if ScanAddress(s, q, phys).Some? {
      FitsExactlyWhen(s[i], AlignUp(s[i].base, q.align), q, phys);
      assert s[i] in s && ServedBy(s[i], AlignUp(s[i].base, q.align), q, phys);
    } else {
      forall r, at: nat | r in s ensures !ServedBy(r, at, q, phys) {
        if at % q.align == 0 && r.base <= at < r.base + q.align { FitsExactlyWhen(r, at, q, phys); }
      }
    }
  }
}
