/** The recursive tree operations on boxed nodes, each proved against its function on trees. */
module TreeOperations {
  import opened Wrappers
  import opened Regions
  import T = RegionTree
  import opened TreeDeletion
  import opened TreeNodes
  import opened FirstFit
  import opened RegionAllocator

  /** The colour tests the operations make see the colours of the tree. */
  lemma Colors(n: TreeRegion, o: Boxes, t: T.Tree)
    requires Owns(n, o, t)
    ensures t.Node?
    ensures IsRed(n) == T.IsRed(t) && IsRed(n.left) == T.IsRed(t.left) && IsRed(n.right) == T.IsRed(t.right)
    ensures (n.left == null <==> t.left.Nil?) && (n.right == null <==> t.right.Nil?)
    ensures n.left != null ==> IsRed(n.left.left) == T.IsRed(t.left.left)
    ensures n.right != null ==> IsRed(n.right.left) == T.IsRed(t.right.left)
  {
    Parts(n, o, t);
    if n.left != null {
      Parts(n.left, o.left, t.left);
      if n.left.left != null { Parts(n.left.left, o.left.left, t.left.left); }
    }
    if n.right != null {
      Parts(n.right, o.right, t.right);
      if n.right.left != null { Parts(n.right.left, o.right.left, t.right.left); }
    }
  }

  method SetLeft(n: TreeRegion, l: TreeRegion?, ghost lo: Boxes, ghost lt: T.Tree, ghost ro: Boxes, ghost rt: T.Tree)
    requires Owns(l, lo, lt) && Owns(n.right, ro, rt)
    requires n !in Nodes(lo) && n !in Nodes(ro) && Nodes(lo) !! Nodes(ro)
    modifies n`left
    ensures Owns(n, Box(n, lo, ro), T.Node(n.base, n.size, n.color, n.maxSize, lt, rt))
  {
    n.left := l;
    assert Owns(l, lo, lt) && Owns(n.right, ro, rt);
  }

  method SetRight(n: TreeRegion, r: TreeRegion?, ghost lo: Boxes, ghost lt: T.Tree, ghost ro: Boxes, ghost rt: T.Tree)
    requires Owns(n.left, lo, lt) && Owns(r, ro, rt)
    requires n !in Nodes(lo) && n !in Nodes(ro) && Nodes(lo) !! Nodes(ro)
    modifies n`right
    ensures Owns(n, Box(n, lo, ro), T.Node(n.base, n.size, n.color, n.maxSize, lt, rt))
  {
    n.right := r;
    assert Owns(n.left, lo, lt) && Owns(r, ro, rt);
  }

  // ---------- Fixing up ----------

  method FixReds(h: TreeRegion, ghost o: Boxes, ghost t: T.Tree) returns (x: TreeRegion, ghost p: Boxes)
    requires Owns(h, o, t) && t.Node?
    modifies Nodes(o)
    ensures Owns(x, p, T.UpdateMax(T.FixTwoRed(T.FixRedRed(t)))) && Nodes(p) == Nodes(o)
  {
    x, p := h, o;
    Colors(x, p, t);
    if IsRed(x.left) && IsRed(x.left.left) {
      x, p := RotateRight(x, p, t);
    }
    ghost var u := T.FixRedRed(t);
    Colors(x, p, u);
    Parts(x, p, u);
    if IsRed(x.left) && IsRed(x.right) {
      FlipColors(x, p, u);
    }
    UpdateMaxSize(x, p, T.FixTwoRed(u));
  }

  method FixUp(h: TreeRegion, ghost o: Boxes, ghost t: T.Tree) returns (x: TreeRegion, ghost p: Boxes)
    requires Owns(h, o, t) && t.Node?
    modifies Nodes(o)
    ensures Owns(x, p, T.FixUp(t)) && Nodes(p) == Nodes(o)
  {
    x, p := h, o;
    Colors(x, p, t);
    if IsRed(x.right) {
      x, p := RotateLeft(x, p, t);
    }
    x, p := FixReds(x, p, T.FixUpLean(t));
  }

  method InsertFix(h: TreeRegion, ghost o: Boxes, ghost t: T.Tree) returns (x: TreeRegion, ghost p: Boxes)
    requires Owns(h, o, t) && t.Node?
    modifies Nodes(o)
    ensures Owns(x, p, T.InsertFix(t)) && Nodes(p) == Nodes(o)
  {
    x, p := h, o;
    Colors(x, p, t);
    if IsRed(x.right) && !IsRed(x.left) {
      x, p := RotateLeft(x, p, t);
    }
    x, p := FixReds(x, p, T.InsertFixLean(t));
  }

  // ---------- Insertion ----------

  method InsertLeft(h: TreeRegion, node: TreeRegion, ghost o: Boxes, ghost t: T.Tree, ghost leaf: T.Tree)
    returns (x: TreeRegion, ghost p: Boxes)
    requires Owns(h, o, t) && Owns(node, Box(node, NoBox, NoBox), leaf) && node !in Nodes(o)
    requires t.Node? && leaf.Node? && leaf.base < t.base
    modifies Nodes(o), node
    ensures Owns(x, p, T.InsertNode(t, leaf)) && Nodes(p) == Nodes(o) + {node}
    decreases o, 0
  {
    Parts(h, o, t);
    var l, lo := InsertNode(h.left, node, o.left, t.left, leaf);
    assert Owns(h.right, o.right, t.right);
    SetLeft(h, l, lo, T.InsertNode(t.left, leaf), o.right, t.right);
    x, p := InsertFix(h, Box(h, lo, o.right), t.(left := T.InsertNode(t.left, leaf)));
  }

  method InsertRight(h: TreeRegion, node: TreeRegion, ghost o: Boxes, ghost t: T.Tree, ghost leaf: T.Tree)
    returns (x: TreeRegion, ghost p: Boxes)
    requires Owns(h, o, t) && Owns(node, Box(node, NoBox, NoBox), leaf) && node !in Nodes(o)
    requires t.Node? && leaf.Node? && t.base <= leaf.base
    modifies Nodes(o), node
    ensures Owns(x, p, T.InsertNode(t, leaf)) && Nodes(p) == Nodes(o) + {node}
    decreases o, 0
  {
    Parts(h, o, t);
    var r, ro := InsertNode(h.right, node, o.right, t.right, leaf);
    assert Owns(h.left, o.left, t.left);
    SetRight(h, r, o.left, t.left, ro, T.InsertNode(t.right, leaf));
    x, p := InsertFix(h, Box(h, o.left, ro), t.(right := T.InsertNode(t.right, leaf)));
  }

  method InsertNode(h: TreeRegion?, node: TreeRegion, ghost o: Boxes, ghost t: T.Tree, ghost leaf: T.Tree)
    returns (x: TreeRegion, ghost p: Boxes)
    requires Owns(h, o, t) && Owns(node, Box(node, NoBox, NoBox), leaf) && node !in Nodes(o)
    modifies Nodes(o), node
    ensures leaf.Node? && Owns(x, p, T.InsertNode(t, leaf)) && Nodes(p) == Nodes(o) + {node}
    decreases o, 1
  {
    Parts(node, Box(node, NoBox, NoBox), leaf);
    if h == null {
      x, p := node, Box(node, NoBox, NoBox);
    } else if node.base < h.base {
      Parts(h, o, t);
      x, p := InsertLeft(h, node, o, t, leaf);
    } else {
      Parts(h, o, t);
      x, p := InsertRight(h, node, o, t, leaf);
    }
  }

  method Blacken(r: TreeRegion?, ghost o: Boxes, ghost t: T.Tree)
    requires Owns(r, o, t)
    modifies Nodes(o)
    ensures Owns(r, o, T.Recolored(t, T.Black))
  {
    if r != null {
      Parts(r, o, t);
      r.color := T.Black;
      assert Owns(r.left, o.left, t.left) && Owns(r.right, o.right, t.right);
    }
  }

  /** Inserts and blackens the new root. */
  method InsertBlack(h: TreeRegion?, node: TreeRegion, ghost o: Boxes, ghost t: T.Tree, ghost leaf: T.Tree)
    returns (x: TreeRegion, ghost p: Boxes)
    requires Owns(h, o, t) && Owns(node, Box(node, NoBox, NoBox), leaf) && node !in Nodes(o)
    modifies Nodes(o), node
    ensures leaf.Node? && Owns(x, p, T.Recolored(T.InsertNode(t, leaf), T.Black)) && Nodes(p) == Nodes(o) + {node}
  {
    x, p := InsertNode(h, node, o, t, leaf);
    Blacken(x, p, T.InsertNode(t, leaf));
  }

  // ---------- Borrowing a red link ----------

  method MoveRedLeft(h: TreeRegion, ghost o: Boxes, ghost t: T.Tree) returns (x: TreeRegion, ghost p: Boxes)
    requires Owns(h, o, t) && t.Node? && t.right.Node?
    modifies Nodes(o)
    ensures Owns(x, p, T.MoveRedLeft(t)) && Nodes(p) == Nodes(o)
  {
    x, p := h, o;
    Parts(h, o, t);
    FlipColors(h, o, t);
    ghost var f := T.FlipColors(t);
    Colors(h, o, f);
    if IsRed(h.right.left) {
      Parts(h, o, f);
      var r, ro := RotateRight(h.right, o.right, f.right);
      SetRight(h, r, o.left, f.left, ro, T.RotateRight(f.right));
      ghost var g := f.(right := T.RotateRight(f.right));
      x, p := RotateLeft(h, Box(h, o.left, ro), g);
      NodesExist(p);
      FlipColors(x, p, T.RotateLeft(g));
    }
  }

  method MoveRedRight(h: TreeRegion, ghost o: Boxes, ghost t: T.Tree) returns (x: TreeRegion, ghost p: Boxes)
    requires Owns(h, o, t) && t.Node? && t.left.Node?
    modifies Nodes(o)
    ensures Owns(x, p, T.MoveRedRight(t)) && Nodes(p) == Nodes(o)
  {
    x, p := h, o;
    Parts(h, o, t);
    FlipColors(h, o, t);
    ghost var f := T.FlipColors(t);
    Colors(h, o, f);
    if IsRed(h.left.left) {
      x, p := RotateRight(h, o, f);
      FlipColors(x, p, T.RotateRight(f));
    }
  }

  method BorrowLeft(h: TreeRegion, ghost o: Boxes, ghost t: T.Tree) returns (x: TreeRegion, ghost p: Boxes)
    requires Owns(h, o, t) && t.Node? && t.left.Node? && (T.NeedsRed(t.left) ==> t.right.Node?)
    modifies Nodes(o)
    ensures Owns(x, p, T.BorrowLeft(t)) && Nodes(p) == Nodes(o)
  {
    x, p := h, o;
    Colors(h, o, t);
    if !IsRed(h.left) && !IsRed(h.left.left) {
      x, p := MoveRedLeft(h, o, t);
    }
  }

  method BorrowRight(h: TreeRegion, ghost o: Boxes, ghost t: T.Tree) returns (x: TreeRegion, ghost p: Boxes)
    requires Owns(h, o, t) && t.Node? && t.right.Node? && (T.NeedsRed(t.right) ==> t.left.Node?)
    modifies Nodes(o)
    ensures Owns(x, p, T.BorrowRight(t)) && Nodes(p) == Nodes(o)
  {
    x, p := h, o;
    Colors(h, o, t);
    if !IsRed(h.right) && !IsRed(h.right.left) {
      x, p := MoveRedRight(h, o, t);
    }
  }

  method LeanRight(h: TreeRegion, ghost o: Boxes, ghost t: T.Tree) returns (x: TreeRegion, ghost p: Boxes)
    requires Owns(h, o, t) && t.Node?
    modifies Nodes(o)
    ensures Owns(x, p, T.LeanRight(t)) && Nodes(p) == Nodes(o)
  {
    x, p := h, o;
    Colors(h, o, t);
    if IsRed(h.left) {
      x, p := RotateRight(h, o, t);
    }
  }

  // ---------- Walks down the tree ----------

  method MinNode(h: TreeRegion, ghost o: Boxes, ghost t: T.Tree) returns (n: TreeRegion)
    requires Owns(h, o, t)
    ensures n in Nodes(o) && t.Node? && Region(n.base, n.size) == T.MinRegion(t)
  {
    n := h;
    ghost var p, u := o, t;
    Parts(n, p, u);
    while n.left != null
      invariant Owns(n, p, u) && Nodes(p) <= Nodes(o)
      invariant u.Node? && T.MinRegion(u) == T.MinRegion(t)
      decreases p
    {
      Parts(n, p, u);
      n, p, u := n.left, p.left, u.left;
      Parts(n, p, u);
    }
    Parts(n, p, u);
  }

  function RegionOf(n: TreeRegion?): Option<Region>
    reads n
  {
    if n == null then None else Some(Region(n.base, n.size))
  }

  method Predecessor(root: TreeRegion?, addr: nat, ghost o: Boxes, ghost t: T.Tree) returns (pred: TreeRegion?)
    requires Owns(root, o, t)
    ensures RegionOf(pred) == PredecessorIn(t, addr, None)
    ensures pred != null ==> pred in Nodes(o)
  {
    pred := null;
    var node := root;
    ghost var p, u := o, t;
    while node != null
      invariant Owns(node, p, u) && Nodes(p) <= Nodes(o) && (pred != null ==> pred in Nodes(o))
      invariant PredecessorIn(u, addr, RegionOf(pred)) == PredecessorIn(t, addr, None)
      decreases p
    {
      Parts(node, p, u);
      if node.base < addr {
        pred := node;
        node, p, u := node.right, p.right, u.right;
      } else {
        node, p, u := node.left, p.left, u.left;
      }
    }
  }

  method Successor(root: TreeRegion?, addr: nat, ghost o: Boxes, ghost t: T.Tree) returns (succ: TreeRegion?)
    requires Owns(root, o, t)
    ensures RegionOf(succ) == SuccessorIn(t, addr, None)
    ensures succ != null ==> succ in Nodes(o)
  {
    succ := null;
    var node := root;
    ghost var p, u := o, t;
    while node != null
      invariant Owns(node, p, u) && Nodes(p) <= Nodes(o) && (succ != null ==> succ in Nodes(o))
      invariant SuccessorIn(u, addr, RegionOf(succ)) == SuccessorIn(t, addr, None)
      decreases p
    {
      Parts(node, p, u);
      if node.base >= addr {
        succ := node;
        node, p, u := node.left, p.left, u.left;
      } else {
        node, p, u := node.right, p.right, u.right;
      }
    }
  }

  // ---------- Allocation ----------

  lemma RepresentableParts(t: T.Tree, q: Request, phys: nat -> nat)
    requires q.align > 0 && t.Node? && Representable(T.Inorder(t), q, phys)
    ensures Representable(T.Inorder(t.left), q, phys) && Representable(T.Inorder(t.right), q, phys)
    ensures Representable([Region(t.base, t.size)], q, phys)
  {
    RootIsInside(t);
  }

  /** Rounding up to a power of two, in 64-bit arithmetic that cannot wrap. */
  method Aligned(base: nat, align: nat) returns (aligned: nat)
    requires PowerOfTwo(align) && base + align <= ADDRESS_SPACE
    ensures align > 0 && aligned == AlignUp(base, align)
  {
    PowerOfTwoBounds(align);
    assert base + (align - 1) < ADDRESS_SPACE;
    MaskIsRoundDown(base + (align - 1), align);
    aligned := RoundDown(base + (align - 1), align);
  }

  method InWindow(aligned: nat, size: nat, boundary: Option<nat>) returns (inside: bool)
    requires size > 0 && aligned + size <= ADDRESS_SPACE && (boundary.Some? ==> PowerOfTwo(boundary.value))
    ensures boundary.Some? ==> boundary.value > 0
    ensures inside == (boundary.Some? ==> OneWindow(aligned, size, boundary.value))
  {
    match boundary
    case None => inside := true;
    case Some(b) =>
      PowerOfTwoBounds(b);
      MaskedWindow(aligned, size, b);
      inside := RoundDown(aligned, b) == RoundDown(aligned + size - 1, b);
  }

  /** The test `alloc` makes on one node; the asserted bounds rule out a 64-bit overflow. */
  method TryNode(base: nat, size: nat, q: Request, phys: nat -> nat) returns (aligned: nat, fits: bool)
    requires q.Sound() && PowerOfTwo(q.align) && (q.boundary.Some? ==> PowerOfTwo(q.boundary.value))
    requires Representable([Region(base, size)], q, phys)
    ensures aligned == AlignUp(base, q.align) && fits == Fits(Region(base, size), q, phys)
  {
    assert Region(base, size) in [Region(base, size)];
    aligned := Aligned(base, q.align);
    var adj := aligned - base;
    fits := false;
    assert adj + q.size < ADDRESS_SPACE;
    assert size >= adj + q.size ==> phys(aligned) + q.size < ADDRESS_SPACE;
    if size >= adj + q.size && phys(aligned) + q.size <= q.Limit() {
      fits := InWindow(aligned, q.size, q.boundary);
    }
  }

  /** Takes the padding and the block off the front of a node's region. */
  method CarveNode(n: TreeRegion, aligned: nat, size: nat, ghost q: Request, phys: nat -> nat, ghost o: Boxes, ghost t: T.Tree)
    requires Owns(n, o, t) && q.Sound() && size == q.size
    requires Fits(Region(n.base, n.size), q, phys) && aligned == AlignUp(n.base, q.align)
    modifies n
    ensures t.Node?
    ensures var c := Carved(old(Region(n.base, n.size)), q); Owns(n, o, T.UpdateMax(t.(base := c.base, size := c.size)))
  {
    Parts(n, o, t);
    var consumed := aligned - n.base + size;
    n.base := n.base + consumed;
    n.size := n.size - consumed;
    assert Owns(n.left, o.left, t.left) && Owns(n.right, o.right, t.right);
    UpdateMaxSize(n, o, t.(base := n.base, size := n.size));
  }

  ghost function AllocLeftResult(t: T.Tree, q: Request, phys: nat -> nat): T.Tree
    requires q.Sound() && t.Node?
  {
    if t.left.Node? && t.left.maxSize >= q.size then T.UpdateMax(t.(left := AllocRec(t.left, q, phys).0)) else t
  }

  method AllocInLeft(n: TreeRegion, q: Request, phys: nat -> nat, ghost o: Boxes, ghost t: T.Tree) returns (out: Option<nat>)
    requires Owns(n, o, t) && q.Sound() && q.maxAddress.Some?
    requires PowerOfTwo(q.align) && (q.boundary.Some? ==> PowerOfTwo(q.boundary.value))
    requires Representable(T.Inorder(t), q, phys)
    modifies Nodes(o)
    ensures t.Node? && Owns(n, o, AllocLeftResult(t, q, phys))
    ensures out == if t.left.Node? && t.left.maxSize >= q.size then AllocRec(t.left, q, phys).1 else None
    decreases o, 0
  {
    Parts(n, o, t);
    RepresentableParts(t, q, phys);
    out := None;
    if n.left != null && n.left.maxSize >= q.size {
      Parts(n.left, o.left, t.left);
      var newLeft;
      newLeft, out := AllocNodes(n.left, q.size, q.align, q.maxAddress, q.boundary, phys, o.left, t.left);
      assert Owns(n.right, o.right, t.right);
      SetLeft(n, newLeft, o.left, AllocRec(t.left, q, phys).0, o.right, t.right);
      UpdateMaxSize(n, o, t.(left := AllocRec(t.left, q, phys).0));
    }
  }

  method AllocInRight(n: TreeRegion, q: Request, phys: nat -> nat, ghost o: Boxes, ghost t: T.Tree) returns (out: Option<nat>)
    requires Owns(n, o, t) && q.Sound() && q.maxAddress.Some?
    requires PowerOfTwo(q.align) && (q.boundary.Some? ==> PowerOfTwo(q.boundary.value))
    requires t.Node? && Representable(T.Inorder(t.right), q, phys)
    modifies Nodes(o)
    ensures out == if t.right.Node? && t.right.maxSize >= q.size then AllocRec(t.right, q, phys).1 else None
    ensures Owns(n, o, T.UpdateMax(
      if t.right.Node? && t.right.maxSize >= q.size then t.(right := AllocRec(t.right, q, phys).0) else t))
    decreases o, 0
  {
    Parts(n, o, t);
    out := None;
    if n.right != null && n.right.maxSize >= q.size {
      Parts(n.right, o.right, t.right);
      var newRight;
      newRight, out := AllocNodes(n.right, q.size, q.align, q.maxAddress, q.boundary, phys, o.right, t.right);
      assert Owns(n.left, o.left, t.left);
      SetRight(n, newRight, o.left, t.left, o.right, AllocRec(t.right, q, phys).0);
      UpdateMaxSize(n, o, t.(right := AllocRec(t.right, q, phys).0));
      if out.Some? {
        return;
      }
      UpdateMaxSize(n, o, T.UpdateMax(t.(right := AllocRec(t.right, q, phys).0)));
    } else {
      UpdateMaxSize(n, o, t);
    }
  }

  /** The recursive allocation: same boxes, same links, one region smaller and the index brought up to date. */
  method AllocNodes(node: TreeRegion?, size: nat, align: nat, maxAddress: Option<nat>, boundary: Option<nat>,
                    phys: nat -> nat, ghost o: Boxes, ghost t: T.Tree) returns (r: TreeRegion?, out: Option<nat>)
    requires Owns(node, o, t) && Request(size, align, maxAddress, boundary).Sound()
    requires PowerOfTwo(align) && (boundary.Some? ==> PowerOfTwo(boundary.value))
    requires Representable(T.Inorder(t), Request(size, align, maxAddress, boundary), phys)
    modifies Nodes(o)
    ensures r == node && Owns(r, o, AllocRec(t, Request(size, align, maxAddress, boundary), phys).0)
    ensures out == AllocRec(t, Request(size, align, maxAddress, boundary), phys).1
    decreases o, 1
  {
    var limit := match maxAddress
      case Some(x) => x
      case None => ADDRESS_SPACE - 1;
    var q := Request(size, align, Some(limit), boundary);
    LimitMayBeExplicit(t, Request(size, align, maxAddress, boundary), phys);
    r := node;
    if node == null {
      return null, None;
    }
    Parts(node, o, t);
    RepresentableParts(t, q, phys);
    out := AllocInLeft(node, q, phys, o, t);
    if out.Some? {
      return;
    }
    ghost var u := AllocLeftResult(t, q, phys);
    Parts(node, o, u);
    var aligned, fits := TryNode(node.base, node.size, q, phys);
    if fits {
      CarveNode(node, aligned, size, q, phys, o, u);
      return node, Some(aligned);
    }
    out := AllocInRight(node, q, phys, o, u);
  }
}
