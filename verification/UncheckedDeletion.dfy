/**
 * Deletion and `free` on any tree whatever: keys may repeat and the shape may be broken. `None` stands
 * for an `unwrap` that fails. On the trees of a safe run these are the operations modelled elsewhere.
 */
module UncheckedDeletion {
  import opened Wrappers
  import opened Regions
  import opened RegionTree
  import opened TreeShape
  import opened TreeDeletion
  import opened Coalescing
  import opened RegionAllocator

  lemma LeftIsSmaller(h: Tree)
    requires h.Node? && h.left.Node? && (NeedsRed(h.left) ==> h.right.Node?)
    ensures BorrowLeft(h).left.Node? && Count(BorrowLeft(h).left) < Count(h)
  {
  }

  lemma RightIsSmaller(h: Tree)
    requires h.Node? && h.right.Node? && (NeedsRed(h.right) ==> h.left.Node?)
    ensures BorrowRight(h).right.Node? && Count(BorrowRight(h).right) < Count(h)
  {
  }

  function TryDeleteMin(h: Tree): Option<Tree>
    requires h.Node?
    decreases Count(h)
  {
    if h.left.Nil? then Some(Nil)
    else if NeedsRed(h.left) && h.right.Nil? then None
    else
      LeftIsSmaller(h);
      var m := BorrowLeft(h);
      var l := TryDeleteMin(m.left);
      if l.None? then None else Some(FixUp(m.(left := l.value)))
  }

  function TryDelete(h: Tree, key: nat): Option<Tree>
    decreases Count(h)
  {
    if h.Nil? then Some(Nil)
    else if key < h.base then
      if h.left.Nil? then Some(FixUp(h))
      else if NeedsRed(h.left) && h.right.Nil? then None
      else
        LeftIsSmaller(h);
        var m := BorrowLeft(h);
        var l := TryDelete(m.left, key);
        if l.None? then None else Some(FixUp(m.(left := l.value)))
    else
      var x := LeanRight(h);
      if x.right.Nil? then Some(if key == x.base then Nil else FixUp(x))
      else if NeedsRed(x.right) && x.left.Nil? then None
      else
        RightIsSmaller(x);
        var m := BorrowRight(x);
        if key == m.base then
          var min, r := MinRegion(m.right), TryDeleteMin(m.right);
          if r.None? then None else Some(FixUp(m.(base := min.base, size := min.size, right := r.value)))
        else
          var r := TryDelete(m.right, key);
          if r.None? then None else Some(FixUp(m.(right := r.value)))
  }

  /** An `unwrap` fails where a sibling is missing that colour is to be borrowed from. */
  lemma MissingSiblingPanics(h: Tree, key: nat)
    requires h.Node?
    ensures h.left.Node? && NeedsRed(h.left) && h.right.Nil? ==>
              TryDeleteMin(h) == None && (key < h.base ==> TryDelete(h, key) == None)
    ensures h.right.Node? && NeedsRed(h.right) && h.left.Nil? && h.base <= key ==> TryDelete(h, key) == None
  {
  }

  // ---------- Agreement where the checked operations are defined ----------

  lemma {:induction false} TryDeleteMinAgrees(h: Tree)
    requires MinDeletable(h)
    ensures TryDeleteMin(h) == Some(DeleteMin(h))
    decreases Count(h)
  {
    if h.left.Nil? {
    } else {
      BorrowLeftReady(h);
      TryDeleteMinAgrees(BorrowLeft(h).left);
    }
  }

  /** No `unwrap` fails, and the result is the one modelled, wherever deletion is defined. */
  lemma {:induction false} TryDeleteAgrees(h: Tree, key: nat)
    requires Deletable(h, key)
    ensures TryDelete(h, key) == Some(Delete(h, key))
    decreases Count(h)
  {
    if h.Nil? {
    } else if key < h.base {
      if h.left.Node? {
        BorrowLeftReady(h);
        TryDeleteAgrees(BorrowLeft(h).left, key);
      }
    } else if LeanRight(h).right.Node? {
      PrepareRightReady(h, key);
      var m := PrepareRight(h);
      if key == m.base {
        TryDeleteMinAgrees(m.right);
      } else {
        TryDeleteAgrees(m.right, key);
      }
    }
  }

  // ---------- Deletion invents nothing ----------

  /** Every region of `s` is one of `t`. */
  ghost predicate Among(s: seq<Region>, t: seq<Region>) {
    forall r :: r in s ==> r in t
  }

  lemma NodeMembers(h: Tree, r: Region)
    requires h.Node?
    ensures r in Inorder(h) <==> r in Inorder(h.left) || r == Region(h.base, h.size) || r in Inorder(h.right)
  {
  }

  /** Replacing the left subtree by fewer regions, then fixing up, invents nothing. */
  lemma LeftAmong(m: Tree, l: Tree)
    requires m.Node? && Among(Inorder(l), Inorder(m.left))
    ensures Among(Inorder(FixUp(m.(left := l))), Inorder(m))
  {
    FixUpKeepsContents(m.(left := l));
    forall r | r in Inorder(m.(left := l)) ensures r in Inorder(m) {
      NodeMembers(m.(left := l), r);
      NodeMembers(m, r);
    }
  }

  /** The same on the right, where the node itself may take the place of a region from there. */
  lemma RightAmong(m: Tree, own: Region, d: Tree)
    requires m.Node? && Among(Inorder(d), Inorder(m.right))
    requires own == Region(m.base, m.size) || own in Inorder(m.right)
    ensures Among(Inorder(FixUp(m.(base := own.base, size := own.size, right := d))), Inorder(m))
  {
    var c := m.(base := own.base, size := own.size, right := d);
    FixUpKeepsContents(c);
    forall r | r in Inorder(c) ensures r in Inorder(m) {
      NodeMembers(c, r);
      NodeMembers(m, r);
    }
  }

  lemma {:induction false} TryDeleteMinInventsNothing(h: Tree)
    requires h.Node? && TryDeleteMin(h).Some?
    ensures Among(Inorder(TryDeleteMin(h).value), Inorder(h))
    decreases Count(h)
  {
    if h.left.Nil? {
    } else {
      LeftIsSmaller(h);
      PreparationsKeepContents(h);
      var m := BorrowLeft(h);
      TryDeleteMinInventsNothing(m.left);
      LeftAmong(m, TryDeleteMin(m.left).value);
    }
  }

  lemma {:induction false} TryDeleteInventsNothing(h: Tree, key: nat)
    requires TryDelete(h, key).Some?
    ensures Among(Inorder(TryDelete(h, key).value), Inorder(h))
    decreases Count(h)
  {
    if h.Nil? {
    } else if key < h.base {
      FixUpKeepsContents(h);
      if h.left.Node? {
        LeftIsSmaller(h);
        PreparationsKeepContents(h);
        var m := BorrowLeft(h);
        TryDeleteInventsNothing(m.left, key);
        LeftAmong(m, TryDelete(m.left, key).value);
      }
    } else {
      PreparationsKeepContents(h);
      TryDeleteRightInventsNothing(h, key, LeanRight(h));
    }
  }

  lemma {:induction false} TryDeleteRightInventsNothing(h: Tree, key: nat, x: Tree)
    requires h.Node? && h.base <= key && x == LeanRight(h) && TryDelete(h, key).Some? && Inorder(x) == Inorder(h)
    ensures Among(Inorder(TryDelete(h, key).value), Inorder(h))
    decreases Count(h), 0
  {
    if x.right.Nil? {
      FixUpKeepsContents(x);
    } else {
      RightIsSmaller(x);
      PreparationsKeepContents(x);
      var m := BorrowRight(x);
      if key == m.base {
        MinRegionIsFirst(m.right);
        TryDeleteMinInventsNothing(m.right);
        RightAmong(m, MinRegion(m.right), TryDeleteMin(m.right).value);
      } else {
        TryDeleteInventsNothing(m.right, key);
        RightAmong(m, Region(m.base, m.size), TryDelete(m.right, key).value);
      }
    }
  }

  // ---------- free ----------

  /** On any tree, a neighbour found lies on its side of the address and in the tree. */
  lemma {:induction false} LookupsAreInTheTree(t: Tree, addr: nat, p: Option<Region>, s: Option<Region>)
    requires (p.Some? ==> p.value.base < addr) && (s.Some? ==> addr <= s.value.base)
    ensures var q := PredecessorIn(t, addr, p); q.Some? ==> q.value.base < addr && (q == p || q.value in Inorder(t))
    ensures var z := SuccessorIn(t, addr, s); z.Some? ==> addr <= z.value.base && (z == s || z.value in Inorder(t))
  {
    if t.Nil? {
    } else {
      var own := Region(t.base, t.size);
      RootIsInside(t);
      LookupsAreInTheTree(t.left, addr, p, if t.base >= addr then Some(own) else s);
      LookupsAreInTheTree(t.right, addr, if t.base < addr then Some(own) else p, s);
    }
  }

  function TryMerge(root: Tree, base: nat, size: nat): Merge {
    LookupsAreInTheTree(root, base, None, None);
    MergeSuccessor(MergePredecessor(PredecessorIn(root, base, None), base, size), SuccessorIn(root, base, None))
  }

  function TryRemove(root: Tree, key: Option<nat>): Option<Tree> {
    if key.None? then Some(root) else TryDelete(root, key.value)
  }

  function TryFree(root: Tree, base: nat, size: nat): Option<Tree> {
    var m := TryMerge(root, base, size);
    var one := TryRemove(root, m.predKey);
    if one.None? then None
    else
      var two := TryRemove(one.value, m.succKey);
      if two.None? then None else Some(Insert(two.value, Region(m.base, m.size)))
  }

  lemma TryRemoveAgrees(root: Tree, key: Option<nat>)
    requires Ordered(root)
    ensures TryRemove(root, key) == Some(RemoveIfAny(root, key))
  {
    if key.Some? {
      RemoveKeepsOrder(root, key.value);
      TryDeleteAgrees(root, key.value);
    }
  }

  lemma TryFreeAgrees(root: Tree, base: nat, size: nat)
    requires Ordered(root)
    ensures TryFree(root, base, size) == Some(RegionAllocator.Free(root, base, size))
  {
    var m := TreeMerge(root, base, size);
    TryRemoveAgrees(root, m.predKey);
    TryRemoveAgrees(RemoveIfAny(root, m.predKey), m.succKey);
  }

  // ---------- Which bytes free makes free ----------

  lemma CoveredByMember(s: seq<Region>, r: Region, x: nat)
    requires r in s && Contains(r, x)
    ensures Covers(s, x)
  {
    var i :| 0 <= i < |s| && s[i] == r;
  }

  /** The merged region lies in the block and the two neighbours it took in. */
  lemma MergeCoversNothingNew(p: Option<Region>, z: Option<Region>, b: Region, x: nat)
    requires (p.Some? ==> p.value.base < b.base) && (z.Some? ==> b.base <= z.value.base)
    requires var m := MergeSuccessor(MergePredecessor(p, b.base, b.size), z); Contains(Region(m.base, m.size), x)
    ensures Contains(b, x) || (p.Some? && Contains(p.value, x)) || (z.Some? && Contains(z.value, x))
  {
  }

  lemma {:induction false} InsertNodeMembers(h: Tree, node: Tree, r: Region)
    requires node.Node? && node.left.Nil? && node.right.Nil?
    ensures r in Inorder(InsertNode(h, node)) <==> r in Inorder(h) || r == Region(node.base, node.size)
  {
    if h.Nil? {
    } else {
      var c := if node.base < h.base then h.(left := InsertNode(h.left, node)) else h.(right := InsertNode(h.right, node));
      InsertNodeMembers(if node.base < h.base then h.left else h.right, node, r);
      FixUpKeepsContents(c);
      NodeMembers(h, r);
      NodeMembers(c, r);
    }
  }

  lemma InsertMembers(root: Tree, n: Region, r: Region)
    ensures r in Inorder(Insert(root, n)) <==> r in Inorder(root) || (r == n && n.size > 0)
  {
    if n.size > 0 {
      InsertNodeMembers(root, NewNode(n.base, n.size), r);
      RecoloringKeepsContents(InsertNode(root, NewNode(n.base, n.size)), Black);
    }
  }

  lemma TryRemoveInventsNothing(root: Tree, key: Option<nat>)
    requires TryRemove(root, key).Some?
    ensures Among(Inorder(TryRemove(root, key).value), Inorder(root))
  {
    if key.Some? { TryDeleteInventsNothing(root, key.value); }
  }

  /** Even on a tree with repeated keys, a byte that is free afterwards was free before or in the block. */
  lemma TryFreeCoversNothingNew(root: Tree, b: Region, x: nat)
    requires TryFree(root, b.base, b.size).Some? && Covers(Inorder(TryFree(root, b.base, b.size).value), x)
    ensures Covers(Inorder(root), x) || Contains(b, x)
  {
    var m := TryMerge(root, b.base, b.size);
    var merged := Region(m.base, m.size);
    var one := TryRemove(root, m.predKey).value;
    var two := TryRemove(one, m.succKey).value;
    TryRemoveInventsNothing(root, m.predKey);
    TryRemoveInventsNothing(one, m.succKey);
    var s := Inorder(Insert(two, merged));
    var i :| 0 <= i < |s| && s[i].base <= x < s[i].End();
    assert s[i] in s;
    InsertMembers(two, merged, s[i]);
    if s[i] in Inorder(two) {
      CoveredByMember(Inorder(root), s[i], x);
    } else {
      LookupsAreInTheTree(root, b.base, None, None);
      var p, z := PredecessorIn(root, b.base, None), SuccessorIn(root, b.base, None);
      MergeCoversNothingNew(p, z, b, x);
      if p.Some? && Contains(p.value, x) { CoveredByMember(Inorder(root), p.value, x); }
      if z.Some? && Contains(z.value, x) { CoveredByMember(Inorder(root), z.value, x); }
    }
  }
}
