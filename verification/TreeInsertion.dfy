/** Insertion: shape, contents, and the height bound the shape gives. */
module TreeInsertion {
  import opened Arithmetic
  import opened Regions
  import opened RegionTree
  import opened TreeShape

  /** `r` is what insertion may make of the non-empty tree `h`, whatever colour `h` has. */
  ghost predicate Expanded(h: Tree, r: Tree)
    requires h.Node?
  {
    && r.Node? && LlrbUpToRoot(r)
    && if r.color == h.color then
         BlackHeight(r.left) == BlackHeight(h.left)
       else
         BlackHeight(r.left) == BlackHeight(h.left) + 1 && !IsRed(r.left) && IsRed(h.left)
  }

  lemma ExpandedBelowRoot(c: Tree, r: Tree)
    requires Llrb(c)
    requires if c.Nil? then r.Node? && Llrb(r) && BlackHeight(r) == 0 else Expanded(c, r)
    ensures Grown(r) && BlackHeight(r) == BlackHeight(c) && (!IsRed(c) ==> Llrb(r))
  {
  }

  lemma {:induction false} InsertExpands(h: Tree, base: nat, size: nat)
    requires LlrbUpToRoot(h)
    ensures h.Node? ==> Expanded(h, InsertNode(h, NewNode(base, size)))
    ensures LlrbUpToRoot(InsertNode(h, NewNode(base, size)))
  {
    var node := NewNode(base, size);
    if h.Nil? {
    } else if base < h.base {
      InsertExpands(h.left, base, size);
      ExpandedBelowRoot(h.left, InsertNode(h.left, node));
      InsertFixShape(h.(left := InsertNode(h.left, node)));
    } else {
      InsertExpands(h.right, base, size);
      ExpandedBelowRoot(h.right, InsertNode(h.right, node));
      InsertFixShapeRight(h.(right := InsertNode(h.right, node)));
    }
  }

  lemma SortedNodeParts(h: Tree)
    requires h.Node? && Sorted(Inorder(h))
    ensures Sorted(Inorder(h.left)) && Sorted(Inorder(h.right))
  {
    var s, n := Inorder(h), |Inorder(h.left)|;
    assert Inorder(h.left) == s[..n] && Inorder(h.right) == s[n + 1..];
  }

  lemma {:induction false} InsertContents(h: Tree, node: Tree)
    requires Sorted(Inorder(h)) && node.Node? && node.left.Nil? && node.right.Nil?
    ensures Inorder(InsertNode(h, node)) == InsertInOrder(Inorder(h), Region(node.base, node.size))
  {
    if h.Nil? {
    } else {
      SortedNodeParts(h);
      InsertInOrderSplit(Inorder(h.left), Region(h.base, h.size), Inorder(h.right), Region(node.base, node.size));
      if node.base < h.base {
        InsertContents(h.left, node);
        FixUpKeepsContents(h.(left := InsertNode(h.left, node)));
      } else {
        InsertContents(h.right, node);
        FixUpKeepsContents(h.(right := InsertNode(h.right, node)));
      }
    }
  }

  // ---------- Height ----------

  lemma {:induction false} BlackHeightBoundsCount(t: Tree)
    requires Llrb(t)
    ensures Pow2(BlackHeight(t)) <= Count(t) + 1
  {
    if t.Nil? {
    } else {
      BlackHeightBoundsCount(t.left);
      BlackHeightBoundsCount(t.right);
    }
  }

  lemma {:induction false} BlackHeightBoundsHeight(t: Tree)
    requires Llrb(t)
    ensures Height(t) <= 2 * BlackHeight(t) + (if IsRed(t) then 1 else 0)
  {
    if t.Nil? {
    } else {
      BlackHeightBoundsHeight(t.left);
      BlackHeightBoundsHeight(t.right);
    }
  }

  /** A tree in shape, whatever its root's colour, with n nodes is at most 2*log2(n+1) high. */
  lemma HeightIsLogarithmic(t: Tree)
    requires LlrbUpToRoot(t)
    ensures Pow2(Height(t)) <= (Count(t) + 1) * (Count(t) + 1)
  {
    var u := Recolored(t, Black);
    var b := BlackHeight(u);
    BlackHeightBoundsCount(u);
    BlackHeightBoundsHeight(u);
    Pow2Grows(Height(u), 2 * b);
    Pow2Adds(b, b);
    SquareGrows(Pow2(b), Count(u) + 1);
  }
}
