/** The size index: `maxSize` is exact again after every operation that leaves it stale inside. */
module SizeIndex {
  import opened Arithmetic
  import opened Regions
  import opened RegionTree
  import opened TreeDeletion

  /** Every node stores the largest size of its subtree. */
  predicate MaxExact(t: Tree) {
    t.Node? ==>
      MaxExact(t.left) && MaxExact(t.right)
      && t.maxSize == Max(Max(t.size, StoredMax(t.left)), StoredMax(t.right))
  }

  /** Only the children are indexed exactly; the node itself may be stale. */
  predicate ChildrenExact(t: Tree)
    requires t.Node?
  {
    MaxExact(t.left) && MaxExact(t.right)
  }

  /** Exact local bookkeeping means the root knows the maximum over the whole sequence. */
  lemma {:induction false} MaxExactIsMaximum(t: Tree)
    requires MaxExact(t)
    ensures forall r :: r in Inorder(t) ==> r.size <= StoredMax(t)
    ensures t.Node? ==> exists r :: r in Inorder(t) && r.size == StoredMax(t)
  {
    if t.Nil? {
    } else {
      MaxExactIsMaximum(t.left);
      MaxExactIsMaximum(t.right);
      RootIsInside(t);
      if t.maxSize == t.size {
        assert Region(t.base, t.size).size == StoredMax(t);
      } else if t.left.Node? && t.maxSize == StoredMax(t.left) {
        var r :| r in Inorder(t.left) && r.size == StoredMax(t.left);
        assert r in Inorder(t);
      } else {
        var r :| r in Inorder(t.right) && r.size == StoredMax(t.right);
        assert r in Inorder(t);
      }
    }
  }

  lemma RotateLeftKeepsIndex(h: Tree)
    requires h.Node? && ChildrenExact(h) && h.right.Node?
    ensures MaxExact(RotateLeft(h))
  {
    assert MaxExact(UpdateMax(h.(right := h.right.left)));
    assert MaxExact(RotateLeft(h).left);
  }

  lemma RotateRightKeepsIndex(h: Tree)
    requires h.Node? && ChildrenExact(h) && h.left.Node?
    ensures MaxExact(RotateRight(h))
  {
    assert MaxExact(UpdateMax(h.(left := h.left.right)));
    assert MaxExact(RotateRight(h).right);
  }

  lemma FlipColorsKeepsIndex(h: Tree)
    requires h.Node? && ChildrenExact(h)
    ensures ChildrenExact(FlipColors(h)) && (MaxExact(h) ==> MaxExact(FlipColors(h)))
  {
    assert MaxExact(Toggled(h.left)) && MaxExact(Toggled(h.right));
  }

  lemma RotationsKeepIndex(h: Tree)
    requires h.Node? && ChildrenExact(h)
    ensures h.right.Node? ==> MaxExact(RotateLeft(h))
    ensures h.left.Node? ==> MaxExact(RotateRight(h))
    ensures ChildrenExact(FlipColors(h)) && (MaxExact(h) ==> MaxExact(FlipColors(h)))
    ensures MaxExact(UpdateMax(h))
  {
    if h.right.Node? { RotateLeftKeepsIndex(h); }
    if h.left.Node? { RotateRightKeepsIndex(h); }
    FlipColorsKeepsIndex(h);
  }

  lemma FixUpIndex(h: Tree)
    requires h.Node? && ChildrenExact(h)
    ensures MaxExact(FixUp(h)) && MaxExact(InsertFix(h))
  {
    RotationsKeepIndex(h);
    var a, b := FixUpLean(h), InsertFixLean(h);
    RotationsKeepIndex(a);
    RotationsKeepIndex(b);
    RotationsKeepIndex(FixRedRed(a));
    RotationsKeepIndex(FixRedRed(b));
    RotationsKeepIndex(FixTwoRed(FixRedRed(a)));
    RotationsKeepIndex(FixTwoRed(FixRedRed(b)));
  }

  lemma MovesKeepIndex(h: Tree)
    requires h.Node? && ChildrenExact(h)
    ensures h.right.Node? ==> ChildrenExact(MoveRedLeft(h))
    ensures h.left.Node? ==> ChildrenExact(MoveRedRight(h))
    ensures (NeedsRed(h.left) ==> h.right.Node?) ==> ChildrenExact(BorrowLeft(h))
    ensures (NeedsRed(h.right) ==> h.left.Node?) ==> ChildrenExact(BorrowRight(h))
    ensures ChildrenExact(LeanRight(h))
  {
    RotationsKeepIndex(h);
    var f := FlipColors(h);
    RotationsKeepIndex(f);
    if h.right.Node? && IsRed(f.right.left) {
      RotationsKeepIndex(f.right);
      var g := f.(right := RotateRight(f.right));
      RotationsKeepIndex(g);
      RotationsKeepIndex(RotateLeft(g));
    }
    if h.left.Node? && IsRed(f.left.left) {
      RotationsKeepIndex(RotateRight(f));
    }
  }

  lemma {:induction false} InsertKeepsIndex(h: Tree, base: nat, size: nat)
    requires MaxExact(h)
    ensures MaxExact(InsertNode(h, NewNode(base, size)))
  {
    if h.Nil? {
    } else {
      InsertKeepsIndex(h.left, base, size);
      InsertKeepsIndex(h.right, base, size);
      FixUpIndex(h.(left := InsertNode(h.left, NewNode(base, size))));
      FixUpIndex(h.(right := InsertNode(h.right, NewNode(base, size))));
    }
  }

  lemma {:induction false} DeleteMinKeepsIndex(h: Tree)
    requires MinDeletable(h) && ChildrenExact(h)
    ensures MaxExact(DeleteMin(h))
    decreases Count(h)
  {
    if h.left.Nil? {
    } else {
      BorrowLeftReady(h);
      MovesKeepIndex(h);
      var m := BorrowLeft(h);
      DeleteMinKeepsIndex(m.left);
      FixUpIndex(m.(left := DeleteMin(m.left)));
    }
  }

  lemma PrepareRightIndex(h: Tree, key: nat)
    requires h.Node? && Deletable(h, key) && h.base <= key && MaxExact(h) && LeanRight(h).right.Node?
    ensures NeedsRed(LeanRight(h).right) ==> LeanRight(h).left.Node?
    ensures ChildrenExact(PrepareRight(h))
  {
    PrepareRightReady(h, key);
    MovesKeepIndex(h);
    MovesKeepIndex(LeanRight(h));
  }

  /** Deletion restores the index even after the successor copy has made the node's own entry stale. */
  lemma {:induction false} DeleteKeepsIndex(h: Tree, key: nat)
    requires Deletable(h, key) && MaxExact(h)
    ensures MaxExact(Delete(h, key))
    decreases Count(h)
  {
    if h.Nil? {
    } else if key < h.base {
      DeleteLeftKeepsIndex(h, key);
    } else if LeanRight(h).right.Nil? {
      MovesKeepIndex(h);
      FixUpIndex(LeanRight(h));
    } else {
      PrepareRightReady(h, key);
      PrepareRightIndex(h, key);
      var m := PrepareRight(h);
      if key == m.base {
        var min := MinRegion(m.right);
        DeleteMinKeepsIndex(m.right);
        FixUpIndex(m.(base := min.base, size := min.size, right := DeleteMin(m.right)));
      } else {
        DeleteKeepsIndex(m.right, key);
        FixUpIndex(m.(right := Delete(m.right, key)));
      }
    }
  }

  lemma {:induction false} DeleteLeftKeepsIndex(h: Tree, key: nat)
    requires h.Node? && Deletable(h, key) && MaxExact(h) && key < h.base
    ensures MaxExact(Delete(h, key))
    decreases Count(h), 0
  {
    if h.left.Nil? {
      FixUpIndex(h);
    } else {
      BorrowLeftReady(h);
      MovesKeepIndex(h);
      var m := BorrowLeft(h);
      DeleteKeepsIndex(m.left, key);
      FixUpIndex(m.(left := Delete(m.left, key)));
    }
  }
}
