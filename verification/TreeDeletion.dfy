/**
 * Deletion from the left-leaning red-black tree. The caller never recolours the root
 * first, so the contract treats the colour of a subtree's own root as a tag that no
 * test reads: it is carried along, and toggled exactly when a level of black is given up.
 */
module TreeDeletion {
  import opened Regions
  import opened RegionTree
  import opened TreeShape

  /** A tree that deletion of `key` may be started on. */
  ghost predicate Deletable(h: Tree, key: nat) {
    && StrictlySorted(Inorder(h))
    && (LlrbUpToRoot(h) || (RightHeavy(h) && h.base <= key))
  }

  /** `r` is what deletion may leave of the non-empty tree `h`, whatever colour `h` has. */
  ghost predicate Shrunk(h: Tree, r: Tree)
    requires h.Node?
  {
    if r.Nil? then
      h.left.Nil? && h.right.Nil?
    else
      && LlrbUpToRoot(r)
      && if r.color == h.color then
           BlackHeight(r.left) == BlackHeight(h.left) && (IsRed(r.left) ==> IsRed(h.left) || IsRed(h.right))
         else
           BlackHeight(r.left) + 1 == BlackHeight(h.left) && !IsRed(h.left) && !IsRed(h.right)
  }

  /** Below the root the colour is real: black height is kept, and black stays black. */
  lemma ShrunkBelowRoot(c: Tree, r: Tree)
    requires c.Node? && Shrunk(c, r)
    requires (Llrb(c) && (IsRed(c) || IsRed(c.left))) || RightHeavy(c)
    ensures Llrb(r) && BlackHeight(r) == BlackHeight(c) && (IsRed(r) ==> IsRed(c))
  {
  }

  lemma NilHasNoSibling(h: Tree)
    requires h.Node? && Joined(h)
    ensures h.left.Nil? && !IsRed(h.right) ==> h.right.Nil?
    ensures h.right.Nil? && !IsRed(h.left) ==> h.left.Nil?
  {
  }

  /** Sub-sequences of a sorted in-order sequence, at the node that splits it. */
  lemma NodeParts(h: Tree)
    requires h.Node? && StrictlySorted(Inorder(h))
    ensures StrictlySorted(Inorder(h.left)) && StrictlySorted(Inorder(h.right))
    ensures forall r :: r in Inorder(h.left) ==> r.base < h.base
    ensures forall r :: r in Inorder(h.right) ==> h.base < r.base
  {
    SortedParts(Inorder(h.left), Region(h.base, h.size), Inorder(h.right));
  }

  lemma RootIsInside(h: Tree)
    requires h.Node?
    ensures Region(h.base, h.size) in Inorder(h)
  {
    assert Inorder(h)[|Inorder(h.left)|] == Region(h.base, h.size);
  }

  // ---------- The three preparations ----------

  lemma BorrowLeftReady(h: Tree)
    requires h.Node? && LlrbUpToRoot(h) && h.left.Node? && StrictlySorted(Inorder(h))
    ensures NeedsRed(h.left) ==> h.right.Node?
    ensures var m := BorrowLeft(h);
      && Joined(m) && m.left.Node? && (IsRed(m.left) || IsRed(m.left.left))
      && Inorder(m) == Inorder(h) && StrictlySorted(Inorder(m.left)) && Count(m.left) < Count(h)
      && h.base <= m.base
      && (m.color == h.color ==>
            !IsRed(m.right) && BlackHeight(m.left) == BlackHeight(h.left) && (IsRed(m.left) ==> IsRed(h.left)))
      && (m.color != h.color ==>
            && IsRed(m.left) && IsRed(m.right)
            && BlackHeight(m.left) + 1 == BlackHeight(h.left) && !IsRed(h.left))
  {
    PreparationsKeepContents(h);
    if NeedsRed(h.left) { MoveRedLeftShape(h); }
    var m := BorrowLeft(h);
    PreparationsKeepContents(h);
    NodeParts(h);
    NodeParts(m);
    RootIsInside(m.left);
  }

  /** The node the search for `key >= h.base` goes on from, after leaning and borrowing. */
  function PrepareRight(h: Tree): (m: Tree)
    requires h.Node?
    requires NeedsRed(LeanRight(h).right) ==> LeanRight(h).left.Node?
    ensures m.Node? && Count(m) == Count(h)
  {
    BorrowRight(LeanRight(h))
  }

  lemma PrepareRightReady(h: Tree, key: nat)
    requires h.Node? && Deletable(h, key) && h.base <= key && LeanRight(h).right.Node?
    ensures NeedsRed(LeanRight(h).right) ==> LeanRight(h).left.Node?
    ensures var m := PrepareRight(h);
      && Llrb(m.left) && m.right.Node? && BlackHeight(m.left) == BlackHeight(m.right)
      && Inorder(m) == Inorder(h) && StrictlySorted(Inorder(m.right)) && Count(m.right) < Count(h)
      && m.base <= key
      && ((Llrb(m.right) && (IsRed(m.right) || IsRed(m.right.left)))
          || (RightHeavy(m.right) && m.base < m.right.base <= key))
      && (m.color == h.color ==>
            && !IsRed(m.left) && BlackHeight(m.left) == BlackHeight(h.left)
            && (IsRed(m.right) ==> IsRed(h.left) || IsRed(h.right)))
      && (m.color != h.color ==>
            && IsRed(m.left) && IsRed(m.right)
            && BlackHeight(m.left) + 1 == BlackHeight(h.left) && !IsRed(h.left) && !IsRed(h.right))
  {
    PreparationsKeepContents(h);
    var x := LeanRight(h);
    NodeParts(h);
    NodeParts(x);
    if LlrbUpToRoot(h) { LeanRightShape(h); }
    assert x.base <= key;
    if NeedsRed(x.right) { MoveRedRightShape(x); }
    PreparationsKeepContents(x);
    var m := BorrowRight(x);
    NodeParts(m);
    RootIsInside(m.right);
  }

  // ---------- The deletions ----------

  ghost predicate MinDeletable(h: Tree) {
    h.Node? && LlrbUpToRoot(h) && StrictlySorted(Inorder(h))
  }

  function DeleteMin(h: Tree): (r: Tree)
    requires MinDeletable(h)
    decreases Count(h)
  {
    if h.left.Nil? then Nil
    else
      BorrowLeftReady(h);
      var m := BorrowLeft(h);
      FixUp(m.(left := DeleteMin(m.left)))
  }

  function Delete(h: Tree, key: nat): (r: Tree)
    requires Deletable(h, key)
    decreases Count(h)
  {
    if h.Nil? then Nil
    else if key < h.base then
      if h.left.Nil? then FixUp(h)
      else
        BorrowLeftReady(h);
        var m := BorrowLeft(h);
        FixUp(m.(left := Delete(m.left, key)))
    else
      var x := LeanRight(h);
      if x.right.Nil? then
        if key == x.base then Nil else FixUp(x)
      else
        PrepareRightReady(h, key);
        var m := BorrowRight(x);
        if key == m.base then
          var min := MinRegion(m.right);
          FixUp(m.(base := min.base, size := min.size, right := DeleteMin(m.right)))
        else
          FixUp(m.(right := Delete(m.right, key)))
  }

  lemma {:induction false} DeleteMinShrinks(h: Tree)
    requires MinDeletable(h)
    ensures Shrunk(h, DeleteMin(h))
    decreases Count(h)
  {
    if h.left.Nil? {
      NilHasNoSibling(h);
    } else {
      BorrowLeftReady(h);
      var m := BorrowLeft(h);
      DeleteMinShrinks(m.left);
      ShrunkBelowRoot(m.left, DeleteMin(m.left));
      FixUpShape(m.(left := DeleteMin(m.left)));
    }
  }

  /** Deleting on the right of a prepared node `m`, leaving `c`, shrinks the original node. */
  lemma RightDone(h: Tree, key: nat, m: Tree, c: Tree)
    requires h.Node? && Deletable(h, key) && h.base <= key && LeanRight(h).right.Node?
    requires (NeedsRed(LeanRight(h).right) ==> LeanRight(h).left.Node?) && m == PrepareRight(h)
    requires m.right.Node? && c.Node? && c.left == m.left && c.color == m.color && Shrunk(m.right, c.right)
    ensures Shrunk(h, FixUp(c))
  {
    PrepareRightReady(h, key);
    ShrunkBelowRoot(m.right, c.right);
    FixUpShape(c);
  }

  lemma {:induction false} DeleteLeftShrinks(h: Tree, key: nat)
    requires h.Node? && Deletable(h, key) && key < h.base
    ensures Shrunk(h, Delete(h, key))
    decreases Count(h), 0
  {
    if h.left.Nil? {
      FixUpShape(h);
    } else {
      BorrowLeftReady(h);
      var m := BorrowLeft(h);
      DeleteShrinks(m.left, key);
      ShrunkBelowRoot(m.left, Delete(m.left, key));
      FixUpShape(m.(left := Delete(m.left, key)));
    }
  }

  lemma {:induction false} DeleteRightShrinks(h: Tree, key: nat)
    requires h.Node? && Deletable(h, key) && h.base <= key && LeanRight(h).right.Node?
    ensures Shrunk(h, Delete(h, key))
    decreases Count(h), 0
  {
    PrepareRightReady(h, key);
    var m := PrepareRight(h);
    if key == m.base {
      var min := MinRegion(m.right);
      DeleteMinShrinks(m.right);
      RightDone(h, key, m, m.(base := min.base, size := min.size, right := DeleteMin(m.right)));
    } else {
      DeleteShrinks(m.right, key);
      RightDone(h, key, m, m.(right := Delete(m.right, key)));
    }
  }

  /** Whatever the colour of the root, deletion leaves a tree in shape and gives up at most one level of black. */
  lemma {:induction false} DeleteShrinks(h: Tree, key: nat)
    requires Deletable(h, key)
    ensures h.Node? ==> Shrunk(h, Delete(h, key))
    decreases Count(h), 1
  {
    if h.Nil? {
    } else if key < h.base {
      DeleteLeftShrinks(h, key);
    } else if LeanRight(h).right.Nil? {
      NilHasNoSibling(h);
      FixUpShape(h);
    } else {
      DeleteRightShrinks(h, key);
    }
  }

  // ---------- What deletion removes ----------

  lemma {:induction false} MinRegionIsFirst(h: Tree)
    requires h.Node?
    ensures Inorder(h) != [] && MinRegion(h) == Inorder(h)[0]
  {
    if h.left.Nil? {
    } else {
      MinRegionIsFirst(h.left);
    }
  }

  lemma DropFirst(a: seq<Region>, x: seq<Region>, b: seq<Region>)
    requires a != []
    ensures (a + x + b)[1..] == a[1..] + x + b
  {
  }

  /** Taking the first region out of the left subtree takes it out of the whole tree. */
  lemma FirstGone(m: Tree, d: Tree)
    requires m.Node? && Inorder(m.left) != [] && Inorder(d) == Inorder(m.left)[1..]
    ensures Inorder(m) != [] && Inorder(FixUp(m.(left := d))) == Inorder(m)[1..]
  {
    FixUpKeepsContents(m.(left := d));
    DropFirst(Inorder(m.left), [Region(m.base, m.size)], Inorder(m.right));
  }

  lemma {:induction false} DeleteMinContents(h: Tree)
    requires MinDeletable(h)
    ensures Inorder(h) != [] && Inorder(DeleteMin(h)) == Inorder(h)[1..]
    decreases Count(h)
  {
    MinRegionIsFirst(h);
    if h.left.Nil? {
      NilHasNoSibling(h);
    } else {
      BorrowLeftReady(h);
      var m := BorrowLeft(h);
      DeleteMinContents(m.left);
      FirstGone(m, DeleteMin(m.left));
    }
  }

  lemma LeftContents(h: Tree, m: Tree, key: nat, d: Tree)
    requires h.Node? && m.Node? && Inorder(m) == Inorder(h) && StrictlySorted(Inorder(h)) && key < m.base
    requires Inorder(d) == RemoveKey(Inorder(m.left), key)
    ensures Inorder(FixUp(m.(left := d))) == RemoveKey(Inorder(h), key)
  {
    FixUpKeepsContents(m.(left := d));
    RemoveKeySplit(Inorder(m.left), Region(m.base, m.size), Inorder(m.right), key);
  }

  lemma RightContents(h: Tree, m: Tree, key: nat, d: Tree)
    requires h.Node? && m.Node? && Inorder(m) == Inorder(h) && StrictlySorted(Inorder(h)) && m.base < key
    requires Inorder(d) == RemoveKey(Inorder(m.right), key)
    ensures Inorder(FixUp(m.(right := d))) == RemoveKey(Inorder(h), key)
  {
    FixUpKeepsContents(m.(right := d));
    RemoveKeySplit(Inorder(m.left), Region(m.base, m.size), Inorder(m.right), key);
  }

  lemma CopiedContents(m: Tree, d: Tree, min: Region)
    requires m.Node? && [min] + Inorder(d) == Inorder(m.right)
    ensures Inorder(FixUp(m.(base := min.base, size := min.size, right := d))) == Inorder(m.left) + Inorder(m.right)
  {
    var c := m.(base := min.base, size := min.size, right := d);
    FixUpKeepsContents(c);
    assert Inorder(c) == Inorder(m.left) + [min] + Inorder(d);
  }

  /** Overwriting a node with its successor and deleting that one removes the node's own region. */
  lemma SuccessorCopyContents(h: Tree, m: Tree)
    requires h.Node? && m.Node? && Inorder(m) == Inorder(h) && StrictlySorted(Inorder(h)) && MinDeletable(m.right)
    ensures var min := MinRegion(m.right);
      Inorder(FixUp(m.(base := min.base, size := min.size, right := DeleteMin(m.right)))) == RemoveKey(Inorder(h), m.base)
  {
    DeleteMinContents(m.right);
    MinRegionIsFirst(m.right);
    CopiedContents(m, DeleteMin(m.right), MinRegion(m.right));
    RemoveKeySplit(Inorder(m.left), Region(m.base, m.size), Inorder(m.right), m.base);
  }

  /** A node given up without a right subtree has no left one either: nothing is dropped with it. */
  lemma LastHasNoChildren(h: Tree, key: nat)
    requires h.Node? && Deletable(h, key) && h.base <= key && LeanRight(h).right.Nil?
    ensures LeanRight(h) == h && h.left.Nil? && h.right.Nil?
  {
    NilHasNoSibling(h);
  }

  lemma LastContents(h: Tree, key: nat)
    requires h.Node? && Deletable(h, key) && h.base <= key && LeanRight(h).right.Nil?
    ensures Inorder(Delete(h, key)) == RemoveKey(Inorder(h), key)
  {
    NilHasNoSibling(h);
    assert h == LeanRight(h);
    RemoveKeySplit(Inorder(h.left), Region(h.base, h.size), Inorder(h.right), key);
    FixUpKeepsContents(h);
  }

  lemma {:induction false} DeleteContents(h: Tree, key: nat)
    requires Deletable(h, key)
    ensures Inorder(Delete(h, key)) == RemoveKey(Inorder(h), key)
    decreases Count(h)
  {
    if h.Nil? {
    } else if key < h.base {
      if h.left.Nil? {
        FixUpKeepsContents(h);
        RemoveKeySplit(Inorder(h.left), Region(h.base, h.size), Inorder(h.right), key);
      } else {
        BorrowLeftReady(h);
        var m := BorrowLeft(h);
        DeleteContents(m.left, key);
        LeftContents(h, m, key, Delete(m.left, key));
      }
    } else if LeanRight(h).right.Nil? {
      LastContents(h, key);
    } else {
      PrepareRightReady(h, key);
      var m := PrepareRight(h);
      if key == m.base {
        SuccessorCopyContents(h, m);
      } else {
        DeleteContents(m.right, key);
        RightContents(h, m, key, Delete(m.right, key));
      }
    }
  }

  // ---------- The colour of the root does not matter ----------

  lemma TogglingCommutes(h: Tree)
    requires h.Node?
    ensures h.right.Node? ==> RotateLeft(Toggled(h)) == Toggled(RotateLeft(h))
    ensures h.left.Node? ==> RotateRight(Toggled(h)) == Toggled(RotateRight(h))
    ensures FlipColors(Toggled(h)) == Toggled(FlipColors(h))
    ensures h.right.Node? ==> MoveRedLeft(Toggled(h)) == Toggled(MoveRedLeft(h))
    ensures h.left.Node? ==> MoveRedRight(Toggled(h)) == Toggled(MoveRedRight(h))
    ensures FixUp(Toggled(h)) == Toggled(FixUp(h))
  {
  }

  lemma ToggledIsDeletable(h: Tree, key: nat)
    requires LlrbUpToRoot(h) && StrictlySorted(Inorder(h))
    ensures Deletable(h, key) && Deletable(Toggled(h), key)
  {
    if h.Node? { RecoloringKeepsContents(h, Toggle(h.color)); }
  }

  lemma DeleteLeftIgnoresRootColor(h: Tree, key: nat)
    requires h.Node? && LlrbUpToRoot(h) && StrictlySorted(Inorder(h)) && key < h.base
    requires Deletable(Toggled(h), key)
    ensures Delete(Toggled(h), key) == Toggled(Delete(h, key))
  {
    TogglingCommutes(h);
    if h.left.Node? {
      BorrowLeftReady(h);
      var m := BorrowLeft(h);
      assert BorrowLeft(Toggled(h)) == Toggled(m);
      TogglingCommutes(m.(left := Delete(m.left, key)));
    }
  }

  lemma PrepareRightIgnoresRootColor(h: Tree, key: nat)
    requires h.Node? && LlrbUpToRoot(h) && StrictlySorted(Inorder(h)) && h.base <= key && LeanRight(h).right.Node?
    ensures LeanRight(Toggled(h)) == Toggled(LeanRight(h))
    ensures NeedsRed(LeanRight(h).right) ==> LeanRight(h).left.Node?
    ensures PrepareRight(Toggled(h)) == Toggled(PrepareRight(h))
  {
    TogglingCommutes(h);
    TogglingCommutes(LeanRight(h));
    PrepareRightReady(h, key);
  }

  /** Deletion with the key at or above the node, told by what the node becomes once it is prepared. */
  lemma DeleteFromPrepared(h: Tree, key: nat)
    requires h.Node? && Deletable(h, key) && h.base <= key && LeanRight(h).right.Node?
    ensures NeedsRed(LeanRight(h).right) ==> LeanRight(h).left.Node?
    ensures var m := PrepareRight(h);
      if key == m.base then
        && m.right.Node? && MinDeletable(m.right)
        && var min := MinRegion(m.right);
           Delete(h, key) == FixUp(m.(base := min.base, size := min.size, right := DeleteMin(m.right)))
      else
        Deletable(m.right, key) && Delete(h, key) == FixUp(m.(right := Delete(m.right, key)))
  {
    PrepareRightReady(h, key);
  }

  lemma DeleteRightIgnoresRootColor(h: Tree, key: nat)
    requires h.Node? && LlrbUpToRoot(h) && StrictlySorted(Inorder(h)) && h.base <= key
    requires Deletable(Toggled(h), key)
    ensures Delete(Toggled(h), key) == Toggled(Delete(h, key))
  {
    if LeanRight(h).right.Nil? {
      TogglingCommutes(h);
      TogglingCommutes(LeanRight(h));
    } else {
      PrepareRightIgnoresRootColor(h, key);
      DeleteFromPrepared(h, key);
      DeleteFromPrepared(Toggled(h), key);
      var m := PrepareRight(h);
      if key == m.base {
        var min := MinRegion(m.right);
        TogglingCommutes(m.(base := min.base, size := min.size, right := DeleteMin(m.right)));
      } else {
        TogglingCommutes(m.(right := Delete(m.right, key)));
      }
    }
  }

  /** No test of the deletion reads the root's colour: toggling it before is toggling it afterwards. */
  lemma DeleteIgnoresRootColor(h: Tree, key: nat)
    requires LlrbUpToRoot(h) && StrictlySorted(Inorder(h))
    ensures Deletable(h, key) && Deletable(Toggled(h), key)
    ensures Delete(Toggled(h), key) == Toggled(Delete(h, key))
  {
    ToggledIsDeletable(h, key);
    if h.Node? {
      if key < h.base {
        DeleteLeftIgnoresRootColor(h, key);
      } else {
        DeleteRightIgnoresRootColor(h, key);
      }
    }
  }
}
