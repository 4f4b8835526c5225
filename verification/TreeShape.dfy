/** What rotations, colour moves and fix-ups do to the shape, the contents and the size index. */
module TreeShape {
  import opened Regions
  import opened RegionTree

  // ---------- Contents ----------

  lemma Regroup(a: seq<Region>, x: seq<Region>, b: seq<Region>, y: seq<Region>, c: seq<Region>)
    ensures (a + x + b) + y + c == a + x + (b + y + c)
  {
  }

  lemma RotateLeftKeepsContents(h: Tree)
    requires h.Node? && h.right.Node?
    ensures Inorder(RotateLeft(h)) == Inorder(h)
  {
    var r := h.right;
    Regroup(Inorder(h.left), [Region(h.base, h.size)], Inorder(r.left), [Region(r.base, r.size)], Inorder(r.right));
    var x := RotateLeft(h);
    assert Inorder(x.left) == Inorder(h.left) + [Region(h.base, h.size)] + Inorder(r.left);
  }

  lemma RotateRightKeepsContents(h: Tree)
    requires h.Node? && h.left.Node?
    ensures Inorder(RotateRight(h)) == Inorder(h)
  {
    var l := h.left;
    Regroup(Inorder(l.left), [Region(l.base, l.size)], Inorder(l.right), [Region(h.base, h.size)], Inorder(h.right));
    var x := RotateRight(h);
    assert Inorder(x.right) == Inorder(l.right) + [Region(h.base, h.size)] + Inorder(h.right);
  }

  lemma FlipColorsKeepsContents(h: Tree)
    requires h.Node?
    ensures Inorder(FlipColors(h)) == Inorder(h)
  {
    assert Inorder(Toggled(h.left)) == Inorder(h.left);
    assert Inorder(Toggled(h.right)) == Inorder(h.right);
  }

  lemma RotationsKeepContents(h: Tree)
    requires h.Node?
    ensures h.right.Node? ==> Inorder(RotateLeft(h)) == Inorder(h)
    ensures h.left.Node? ==> Inorder(RotateRight(h)) == Inorder(h)
    ensures Inorder(FlipColors(h)) == Inorder(h)
  {
    if h.right.Node? { RotateLeftKeepsContents(h); }
    if h.left.Node? { RotateRightKeepsContents(h); }
    FlipColorsKeepsContents(h);
  }

  lemma RecoloringKeepsContents(t: Tree, c: Color)
    ensures Inorder(Recolored(t, c)) == Inorder(t)
  {
  }

  lemma FixesKeepContents(h: Tree)
    requires h.Node?
    ensures Inorder(FixRedRed(h)) == Inorder(h)
    ensures Inorder(FixTwoRed(h)) == Inorder(h)
    ensures Inorder(FixUpLean(h)) == Inorder(h)
    ensures Inorder(InsertFixLean(h)) == Inorder(h)
    ensures Inorder(UpdateMax(h)) == Inorder(h)
  {
    RotationsKeepContents(h);
  }

  lemma FixUpKeepsContents(h: Tree)
    requires h.Node?
    ensures Inorder(FixUp(h)) == Inorder(h)
    ensures Inorder(InsertFix(h)) == Inorder(h)
  {
    FixesKeepContents(h);
    var a := FixUpLean(h);
    FixesKeepContents(a);
    FixesKeepContents(FixRedRed(a));
    FixesKeepContents(FixTwoRed(FixRedRed(a)));
    var b := InsertFixLean(h);
    FixesKeepContents(b);
    FixesKeepContents(FixRedRed(b));
    FixesKeepContents(FixTwoRed(FixRedRed(b)));
  }

  lemma MovesKeepContents(h: Tree)
    requires h.Node?
    ensures h.right.Node? ==> Inorder(MoveRedLeft(h)) == Inorder(h)
    ensures h.left.Node? ==> Inorder(MoveRedRight(h)) == Inorder(h)
  {
    RotationsKeepContents(h);
    var f := FlipColors(h);
    if h.right.Node? && IsRed(f.right.left) {
      RotationsKeepContents(f.right);
      var g := f.(right := RotateRight(f.right));
      RotationsKeepContents(g);
      RotationsKeepContents(RotateLeft(g));
    }
    if h.left.Node? && IsRed(f.left.left) {
      RotationsKeepContents(f);
      RotationsKeepContents(RotateRight(f));
    }
  }

  lemma PreparationsKeepContents(h: Tree)
    requires h.Node?
    ensures (NeedsRed(h.left) ==> h.right.Node?) ==> Inorder(BorrowLeft(h)) == Inorder(h)
    ensures Inorder(LeanRight(h)) == Inorder(h)
    ensures (NeedsRed(h.right) ==> h.left.Node?) ==> Inorder(BorrowRight(h)) == Inorder(h)
  {
    RotationsKeepContents(h);
    MovesKeepContents(h);
  }

  lemma {:induction false} CountIsLength(t: Tree)
    ensures |Inorder(t)| == Count(t)
  {
    if t.Nil? {
    } else {
      CountIsLength(t.left);
      CountIsLength(t.right);
    }
  }

  // ---------- Shape ----------

  /** A half-built node: both children in shape and of one black height, any colours on top. */
  predicate Joined(h: Tree) { h.Node? && Balanced(h) }

  /** `FixUp` turns a joined node into one that is in shape up to its own colour. */
  lemma FixUpShape(h: Tree)
    requires Joined(h)
    ensures var r := FixUp(h);
      && LlrbUpToRoot(r)
      && (IsRed(h.left) && IsRed(h.right) ==>
            r.color == Toggle(h.color) && BlackHeight(r.left) == BlackHeight(h.left) + 1 && !IsRed(r.left))
      && (!(IsRed(h.left) && IsRed(h.right)) ==>
            r.color == h.color && BlackHeight(r.left) == BlackHeight(h.left)
            && (IsRed(r.left) <==> IsRed(h.left) || IsRed(h.right)))
  {
  }

  /** The shape below a node that an insertion has just grown: one red-red pair on the left is allowed. */
  predicate Grown(t: Tree) { t.Node? && LlrbUpToRoot(t) }

  lemma InsertFixShape(h: Tree)
    requires h.Node? && Grown(h.left) && Llrb(h.right) && !IsRed(h.right)
    requires BlackHeight(h.left) == BlackHeight(h.right)
    ensures var r := InsertFix(h);
      && LlrbUpToRoot(r)
      && (IsRed(h.left) && IsRed(h.left.left) ==>
            r.color == Toggle(h.color) && BlackHeight(r.left) == BlackHeight(h.left) + 1 && !IsRed(r.left))
      && (!(IsRed(h.left) && IsRed(h.left.left)) ==>
            r.color == h.color && BlackHeight(r.left) == BlackHeight(h.left) && (IsRed(r.left) <==> IsRed(h.left)))
  {
  }

  lemma InsertFixShapeRight(h: Tree)
    requires Joined(h)
    ensures var r := InsertFix(h);
      && LlrbUpToRoot(r)
      && (IsRed(h.left) && IsRed(h.right) ==>
            r.color == Toggle(h.color) && BlackHeight(r.left) == BlackHeight(h.left) + 1 && !IsRed(r.left))
      && (!(IsRed(h.left) && IsRed(h.right)) ==>
            r.color == h.color && BlackHeight(r.left) == BlackHeight(h.left)
            && (IsRed(r.left) <==> IsRed(h.left) || IsRed(h.right)))
  {
  }

  lemma MoveRedLeftShape(h: Tree)
    requires h.Node? && LlrbUpToRoot(h) && NeedsRed(h.left)
    ensures h.right.Node?
    ensures var m := MoveRedLeft(h);
      && Joined(m) && m.left.Node? && (IsRed(m.left) || IsRed(m.left.left))
      && (m.color == h.color ==> !IsRed(m.left) && !IsRed(m.right) && BlackHeight(m.left) == BlackHeight(h.left))
      && (m.color != h.color ==> IsRed(m.left) && IsRed(m.right) && BlackHeight(m.left) + 1 == BlackHeight(h.left))
  {
    assert BlackHeight(h.right) >= 1;
    var f := FlipColors(h);
    assert Llrb(f.left) && Llrb(h.right.left) && Llrb(h.right.right);
    if IsRed(f.right.left) {
      var g := f.(right := RotateRight(f.right));
      var x := RotateLeft(g);
      assert Llrb(h.right.left.left) && Llrb(h.right.left.right);
      assert !IsRed(h.right.left.left) && !IsRed(h.right.left.right);
      var m := FlipColors(x);
      assert m.left.left == f.left && Llrb(m.left.left) && m.left.right == h.right.left.left;
      assert Llrb(m.left);
      assert m.right.left == h.right.left.right && m.right.right == h.right.right;
      assert Llrb(m.right);
    }
  }

  /** What `MoveRedRight` leaves on the right when it has borrowed: a black node with its red on the right. */
  predicate RightHeavy(t: Tree) {
    Joined(t) && t.color == Black && !IsRed(t.left) && IsRed(t.right)
  }

  lemma MoveRedRightShape(h: Tree)
    requires h.Node? && LlrbUpToRoot(h) && !IsRed(h.left) && NeedsRed(h.right)
    ensures h.left.Node?
    ensures var m := MoveRedRight(h);
      && m.right.Node? && Llrb(m.left) && BlackHeight(m.left) == BlackHeight(m.right)
      && (m.color != h.color ==>
            && IsRed(m.left) && IsRed(m.right) && Llrb(m.right)
            && BlackHeight(m.left) + 1 == BlackHeight(h.left))
      && (m.color == h.color ==>
            && !IsRed(m.left) && BlackHeight(m.left) == BlackHeight(h.left)
            && RightHeavy(m.right) && m.base == h.left.base && m.right.base == h.base)
  {
    assert BlackHeight(h.left) >= 1;
    var f := FlipColors(h);
    assert Llrb(f.right) && Llrb(h.left.left) && Llrb(h.left.right);
    if IsRed(f.left.left) {
      var x := RotateRight(f);
      var m := FlipColors(x);
      var ll := h.left.left;
      assert Llrb(ll.left) && Llrb(ll.right) && m.left == ll.(color := Black);
      assert Llrb(m.left);
      assert m.right.left == h.left.right && m.right.right == f.right;
      assert Llrb(m.right.left);
    } else {
      assert Llrb(f.left);
    }
  }

  lemma LeanRightShape(h: Tree)
    requires h.Node? && LlrbUpToRoot(h)
    ensures var x := LeanRight(h);
      x.Node? && x.color == h.color && Joined(x) && !IsRed(x.left) && BlackHeight(x.left) == BlackHeight(h.left)
      && (IsRed(x.right) <==> IsRed(h.left)) && (IsRed(x.right) ==> !IsRed(x.right.left))
      && (IsRed(h.left) ==> x.base == h.left.base && x.right.base == h.base)
      && (!IsRed(h.left) ==> x == h)
  {
  }
}
