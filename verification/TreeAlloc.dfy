/** The allocator object: tree, node freelist, and the public operations, updated in place. */
module TreeAlloc {
  import opened Arithmetic
  import opened Wrappers
  import opened Regions
  import T = RegionTree
  import opened TreeDeletion
  import opened SizeIndex
  import opened TreeNodes
  import opened TreeOperations
  import opened FirstFit
  import opened Coalescing
  import RegionAllocator
  import opened AllocatorRuns

  /** One deletion moves at most one box: out of the tree and onto the freelist. */
  ghost predicate Recycled(before: set<TreeRegion>, after: set<TreeRegion>, was: seq<TreeRegion>, now: seq<TreeRegion>) {
    || (now == was && after == before)
    || (now != [] && now[1..] == was && now[0] in before && after == before - {now[0]})
  }

  /** What a subtree gives up, the whole tree gives up. */
  lemma RecycledAbove(m: TreeRegion, other: set<TreeRegion>, before: set<TreeRegion>, after: set<TreeRegion>,
                      was: seq<TreeRegion>, now: seq<TreeRegion>)
    requires Recycled(before, after, was, now) && m !in before && other !! before
    requires forall n :: n in was ==> n !in {m} + before + other
    ensures Recycled({m} + before + other, {m} + after + other, was, now)
    ensures forall n :: n in now ==> n !in {m} + after + other
    ensures m !in after && after !! other
  {
    if now != was { assert now == [now[0]] + was; }
  }

  /** Recycling loses no node: what leaves the tree is on the freelist. */
  lemma RecycledTotals(before: set<TreeRegion>, after: set<TreeRegion>, was: seq<TreeRegion>, now: seq<TreeRegion>)
    requires Recycled(before, after, was, now) && forall n :: n in was ==> n !in before
    ensures |after| + |now| == |before| + |was|
    ensures after <= before
    ensures forall n :: n in now ==> n !in after
    ensures forall n :: n in now ==> n in was || n in before
  {
    if now != was {
      assert now == [now[0]] + was;
      assert |after| == |before| - 1;
    }
  }

  /** The nodes `s`, each once, linked through `left` from `n` on. */
  ghost predicate Chain(n: TreeRegion?, s: seq<TreeRegion>)
    reads s
  {
    if s == [] then n == null else n == s[0] && n !in s[1..] && Chain(s[0].left, s[1..])
  }

  /** A prepared node once `key` is gone from it or from below it on the right, before it is fixed up. */
  ghost function DeletedAt(t: T.Tree, key: nat): T.Tree
    requires t.Node? && t.right.Node?
    requires if key == t.base then MinDeletable(t.right) else Deletable(t.right, key)
  {
    if key == t.base then
      var min := T.MinRegion(t.right);
      t.(base := min.base, size := min.size, right := TreeDeletion.DeleteMin(t.right))
    else
      t.(right := TreeDeletion.Delete(t.right, key))
  }

  /** What the right turn of `delete` needs once the node leans right. */
  ghost predicate RightReady(u: T.Tree, key: nat) {
    && u.Node?
    && (u.right.Nil? ==> u.left.Nil?)
    && (u.right.Node? ==>
          && (T.NeedsRed(u.right) ==> u.left.Node?)
          && var m := T.BorrowRight(u);
             m.right.Node? && if key == m.base then MinDeletable(m.right) else Deletable(m.right, key))
  }

  ghost function RightDeleted(u: T.Tree, key: nat): T.Tree
    requires RightReady(u, key)
  {
    if u.right.Node? then T.FixUp(DeletedAt(T.BorrowRight(u), key))
    else if key == u.base then T.Nil
    else T.FixUp(u)
  }

  lemma RightTurn(t: T.Tree, key: nat)
    requires t.Node? && Deletable(t, key) && t.base <= key
    ensures RightReady(T.LeanRight(t), key)
    ensures RightDeleted(T.LeanRight(t), key) == TreeDeletion.Delete(t, key)
    ensures T.LeanRight(t).right.Node? ==> T.Count(T.BorrowRight(T.LeanRight(t)).right) < T.Count(t)
  {
    if T.LeanRight(t).right.Nil? {
      LastHasNoChildren(t, key);
    } else {
      PrepareRightReady(t, key);
    }
  }

  /** The tree once the neighbours of a merge are out and the merged region is in. */
  ghost function MergeApplied(t: T.Tree, m: Merge): T.Tree
    requires RegionAllocator.Ordered(t)
  {
    T.Insert(RegionAllocator.RemoveIfAny(RegionAllocator.RemoveIfAny(t, m.predKey), m.succKey), Region(m.base, m.size))
  }

  class RBTreeAlloc {
    var root: TreeRegion?
    var freelist: TreeRegion?
    const phys: nat -> nat  // translates a virtual address

    ghost var boxes: Boxes  // the nodes linked into the tree
    ghost var tree: T.Tree  // the tree they stand for
    ghost var spare: seq<TreeRegion>  // the nodes on the freelist
    ghost var taken: nat  // nodes ever taken from the bump allocator

    constructor (phys: nat -> nat)
      ensures Valid() && tree == T.Nil && taken == 0 && this.phys == phys
    {
      root, freelist := null, null;
      this.phys := phys;
      boxes, tree, spare, taken := NoBox, T.Nil, [], 0;
    }

    ghost predicate FreelistOk()
      reads this, spare
    {
      Chain(freelist, spare)
    }

    ghost predicate Apart(s: set<TreeRegion>)
      reads this
    {
      forall n :: n in spare ==> n !in s
    }

    ghost predicate Linked()
      reads this, Nodes(boxes), spare
    {
      Owns(root, boxes, tree) && FreelistOk() && Apart(Nodes(boxes)) && taken == |Nodes(boxes)| + |spare|
    }

    ghost predicate Valid()
      reads this, Nodes(boxes), spare
    {
      Linked() && T.LlrbUpToRoot(tree) && MaxExact(tree) && Separated(T.Inorder(tree))
    }

    // ---------- Node recycling ----------

    /** Takes a node off the freelist, or a new one; `linked` nodes are in the tree before. */
    method AllocNode(base: nat, size: nat, ghost linked: nat) returns (node: TreeRegion)
      requires FreelistOk() && taken == linked + |spare|
      modifies this`freelist, this`spare, this`taken, spare
      ensures FreelistOk() && Owns(node, Box(node, NoBox, NoBox), T.NewNode(base, size))
      ensures if old(spare) == [] then fresh(node) && spare == [] && taken == old(taken) + 1
              else node == old(spare)[0] && spare == old(spare)[1..] && taken == old(taken)
      ensures node in old(spare) || fresh(node)
      ensures forall n :: n in spare ==> n in old(spare) && n != node
      ensures taken == linked + 1 + |spare| && taken == Max(old(taken), linked + 1)
    {
      if freelist != null {
        node := freelist;
        freelist := node.left;
        spare := spare[1..];
        node.base := base;
        node.size := size;
        node.maxSize := size;
        node.color := T.Red;
        node.left := null;
        node.right := null;
      } else {
        node := new TreeRegion(base, size);
        taken := taken + 1;
      }
    }

    method FreeNode(node: TreeRegion)
      requires FreelistOk() && node !in spare
      modifies this`freelist, this`spare, node
      ensures FreelistOk() && spare == [node] + old(spare)
    {
      node.left := freelist;
      node.right := null;
      freelist := node;
      spare := [node] + spare;
      assert spare[1..] == old(spare);
    }

    // ---------- Deletion ----------

    method DeleteMin(h: TreeRegion, ghost o: Boxes, ghost t: T.Tree) returns (r: TreeRegion?, ghost p: Boxes)
      requires Owns(h, o, t) && MinDeletable(t)
      requires FreelistOk() && Apart(Nodes(o))
      modifies this`freelist, this`spare, Nodes(o)
      ensures FreelistOk() && Recycled(Nodes(o), Nodes(p), old(spare), spare)
      ensures Owns(r, p, TreeDeletion.DeleteMin(t))
      decreases T.Count(t), 0
    {
      Parts(h, o, t);
      if h.left == null {
        NilHasNoSibling(t);
        FreeNode(h);
        return null, NoBox;
      }
      BorrowLeftReady(t);
      var m, q := BorrowLeft(h, o, t);
      r, p := DeleteMinLeftFixUp(m, q, T.BorrowLeft(t));
    }

    method DeleteMinLeft(m: TreeRegion, ghost o: Boxes, ghost t: T.Tree) returns (ghost p: Boxes)
      requires Owns(m, o, t) && t.Node? && MinDeletable(t.left)
      requires FreelistOk() && Apart(Nodes(o))
      modifies this`freelist, this`spare, Nodes(o)
      ensures FreelistOk() && Recycled(Nodes(o), Nodes(p), old(spare), spare)
      ensures Owns(m, p, t.(left := TreeDeletion.DeleteMin(t.left)))
      decreases T.Count(t.left), 1
    {
      Parts(m, o, t);
      var l, lo := DeleteMin(m.left, o.left, t.left);
      RecycledAbove(m, Nodes(o.right), Nodes(o.left), Nodes(lo), old(spare), spare);
      assert Owns(m.right, o.right, t.right);
      SetLeft(m, l, lo, TreeDeletion.DeleteMin(t.left), o.right, t.right);
      p := Box(m, lo, o.right);
    }

    method DeleteMinLeftFixUp(m: TreeRegion, ghost o: Boxes, ghost t: T.Tree) returns (r: TreeRegion?, ghost p: Boxes)
      requires Owns(m, o, t) && t.Node? && MinDeletable(t.left)
      requires FreelistOk() && Apart(Nodes(o))
      modifies this`freelist, this`spare, Nodes(o)
      ensures FreelistOk() && Recycled(Nodes(o), Nodes(p), old(spare), spare)
      ensures Owns(r, p, T.FixUp(t.(left := TreeDeletion.DeleteMin(t.left))))
      decreases T.Count(t.left), 2
    {
      ghost var q;
      q := DeleteMinLeft(m, o, t);
      r, p := FixUp(m, q, t.(left := TreeDeletion.DeleteMin(t.left)));
    }

    method DeleteMinRight(m: TreeRegion, ghost o: Boxes, ghost t: T.Tree) returns (ghost p: Boxes)
      requires Owns(m, o, t) && t.Node? && MinDeletable(t.right)
      requires FreelistOk() && Apart(Nodes(o))
      modifies this`freelist, this`spare, Nodes(o)
      ensures FreelistOk() && Recycled(Nodes(o), Nodes(p), old(spare), spare)
      ensures Owns(m, p, t.(right := TreeDeletion.DeleteMin(t.right)))
    {
      Parts(m, o, t);
      var d, ro := DeleteMin(m.right, o.right, t.right);
      RecycledAbove(m, Nodes(o.left), Nodes(o.right), Nodes(ro), old(spare), spare);
      assert Owns(m.left, o.left, t.left);
      SetRight(m, d, o.left, t.left, ro, TreeDeletion.DeleteMin(t.right));
      p := Box(m, o.left, ro);
    }

    method DeleteLeft(m: TreeRegion, key: nat, ghost o: Boxes, ghost t: T.Tree) returns (ghost p: Boxes)
      requires Owns(m, o, t) && t.Node? && Deletable(t.left, key)
      requires FreelistOk() && Apart(Nodes(o))
      modifies this`freelist, this`spare, Nodes(o)
      ensures FreelistOk() && Recycled(Nodes(o), Nodes(p), old(spare), spare)
      ensures Owns(m, p, t.(left := TreeDeletion.Delete(t.left, key)))
      decreases T.Count(t.left), 2
    {
      Parts(m, o, t);
      var l, lo := Delete(m.left, key, o.left, t.left);
      RecycledAbove(m, Nodes(o.right), Nodes(o.left), Nodes(lo), old(spare), spare);
      assert Owns(m.right, o.right, t.right);
      SetLeft(m, l, lo, TreeDeletion.Delete(t.left, key), o.right, t.right);
      p := Box(m, lo, o.right);
    }

    method DeleteRight(m: TreeRegion, key: nat, ghost o: Boxes, ghost t: T.Tree) returns (ghost p: Boxes)
      requires Owns(m, o, t) && t.Node? && Deletable(t.right, key)
      requires FreelistOk() && Apart(Nodes(o))
      modifies this`freelist, this`spare, Nodes(o)
      ensures FreelistOk() && Recycled(Nodes(o), Nodes(p), old(spare), spare)
      ensures Owns(m, p, t.(right := TreeDeletion.Delete(t.right, key)))
      decreases T.Count(t.right), 2
    {
      Parts(m, o, t);
      var d, ro := Delete(m.right, key, o.right, t.right);
      RecycledAbove(m, Nodes(o.left), Nodes(o.right), Nodes(ro), old(spare), spare);
      assert Owns(m.left, o.left, t.left);
      SetRight(m, d, o.left, t.left, ro, TreeDeletion.Delete(t.right, key));
      p := Box(m, o.left, ro);
    }

    /** A node without children is given up if it has the key; every node freed is such a node. */
    method DropLast(x: TreeRegion, key: nat, ghost o: Boxes, ghost t: T.Tree) returns (r: TreeRegion?, ghost p: Boxes)
      requires Owns(x, o, t) && t.Node? && t.left.Nil? && t.right.Nil?
      requires FreelistOk() && Apart(Nodes(o))
      modifies this`freelist, this`spare, Nodes(o)
      ensures FreelistOk() && Recycled(Nodes(o), Nodes(p), old(spare), spare)
      ensures Owns(r, p, if key == t.base then T.Nil else T.FixUp(t))
    {
      Parts(x, o, t);
      if key == x.base {
        FreeNode(x);
        return null, NoBox;
      }
      r, p := FixUp(x, o, t);
    }

    method DeleteLeaned(x: TreeRegion, key: nat, ghost o: Boxes, ghost u: T.Tree) returns (r: TreeRegion?, ghost p: Boxes)
      requires Owns(x, o, u) && RightReady(u, key)
      requires FreelistOk() && Apart(Nodes(o))
      modifies this`freelist, this`spare, Nodes(o)
      ensures FreelistOk() && Recycled(Nodes(o), Nodes(p), old(spare), spare)
      ensures Owns(r, p, RightDeleted(u, key))
      decreases if u.right.Node? then T.Count(T.BorrowRight(u).right) else 0, 5
    {
      Parts(x, o, u);
      if x.right == null {
        r, p := DropLast(x, key, o, u);
      } else {
        var m, q := BorrowRight(x, o, u);
        r, p := DeleteAtFixUp(m, key, q, T.BorrowRight(u));
      }
    }

    /** The half of `delete` that takes the right turn, or stops here. */
    method DeleteHere(h: TreeRegion, key: nat, ghost o: Boxes, ghost t: T.Tree) returns (r: TreeRegion?, ghost p: Boxes)
      requires Owns(h, o, t) && t.Node? && Deletable(t, key) && t.base <= key
      requires FreelistOk() && Apart(Nodes(o))
      modifies this`freelist, this`spare, Nodes(o)
      ensures FreelistOk() && Recycled(Nodes(o), Nodes(p), old(spare), spare)
      ensures Owns(r, p, TreeDeletion.Delete(t, key))
      decreases T.Count(t), 0
    {
      var x, q := LeanRight(h, o, t);
      RightTurn(t, key);
      r, p := DeleteLeaned(x, key, q, T.LeanRight(t));
    }

    /** Deletes below a prepared node, or overwrites it with its successor and deletes that one. */
    method DeleteAt(m: TreeRegion, key: nat, ghost o: Boxes, ghost t: T.Tree) returns (ghost p: Boxes)
      requires Owns(m, o, t) && t.Node? && t.right.Node?
      requires if key == t.base then MinDeletable(t.right) else Deletable(t.right, key)
      requires FreelistOk() && Apart(Nodes(o))
      modifies this`freelist, this`spare, Nodes(o)
      ensures FreelistOk() && Recycled(Nodes(o), Nodes(p), old(spare), spare)
      ensures Owns(m, p, DeletedAt(t, key))
      decreases T.Count(t.right), 3
    {
      Parts(m, o, t);
      if key == m.base {
        var min := MinNode(m.right, o.right, t.right);
        m.base, m.size := min.base, min.size;
        assert Owns(m.left, o.left, t.left) && Owns(m.right, o.right, t.right);
        p := DeleteMinRight(m, o, t.(base := m.base, size := m.size));
      } else {
        p := DeleteRight(m, key, o, t);
      }
    }

    method DeleteLeftFixUp(m: TreeRegion, key: nat, ghost o: Boxes, ghost t: T.Tree) returns (r: TreeRegion?, ghost p: Boxes)
      requires Owns(m, o, t) && t.Node? && Deletable(t.left, key)
      requires FreelistOk() && Apart(Nodes(o))
      modifies this`freelist, this`spare, Nodes(o)
      ensures FreelistOk() && Recycled(Nodes(o), Nodes(p), old(spare), spare)
      ensures Owns(r, p, T.FixUp(t.(left := TreeDeletion.Delete(t.left, key))))
      decreases T.Count(t.left), 3
    {
      ghost var q;
      q := DeleteLeft(m, key, o, t);
      r, p := FixUp(m, q, t.(left := TreeDeletion.Delete(t.left, key)));
    }

    method DeleteAtFixUp(m: TreeRegion, key: nat, ghost o: Boxes, ghost t: T.Tree) returns (r: TreeRegion?, ghost p: Boxes)
      requires Owns(m, o, t) && t.Node? && t.right.Node?
      requires if key == t.base then MinDeletable(t.right) else Deletable(t.right, key)
      requires FreelistOk() && Apart(Nodes(o))
      modifies this`freelist, this`spare, Nodes(o)
      ensures FreelistOk() && Recycled(Nodes(o), Nodes(p), old(spare), spare)
      ensures Owns(r, p, T.FixUp(DeletedAt(t, key)))
      decreases T.Count(t.right), 4
    {
      ghost var q;
      q := DeleteAt(m, key, o, t);
      r, p := FixUp(m, q, DeletedAt(t, key));
    }

    method Delete(h: TreeRegion?, key: nat, ghost o: Boxes, ghost t: T.Tree) returns (r: TreeRegion?, ghost p: Boxes)
      requires Owns(h, o, t) && Deletable(t, key)
      requires FreelistOk() && Apart(Nodes(o))
      modifies this`freelist, this`spare, Nodes(o)
      ensures FreelistOk() && Recycled(Nodes(o), Nodes(p), old(spare), spare)
      ensures Owns(r, p, TreeDeletion.Delete(t, key))
      decreases T.Count(t), 1
    {
      if h == null {
        return null, NoBox;
      }
      Parts(h, o, t);
      if key < h.base {
        if h.left != null {
          BorrowLeftReady(t);
          var m, q := BorrowLeft(h, o, t);
          r, p := DeleteLeftFixUp(m, key, q, T.BorrowLeft(t));
        } else {
          r, p := FixUp(h, o, t);
        }
      } else {
        r, p := DeleteHere(h, key, o, t);
      }
    }

    // ---------- The public operations ----------

    /** `self.root = r` */
    method SetRoot(r: TreeRegion?, ghost p: Boxes, ghost t: T.Tree)
      requires Owns(r, p, t) && FreelistOk() && Apart(Nodes(p)) && taken == |Nodes(p)| + |spare|
      modifies this`root, this`boxes, this`tree
      ensures Linked() && boxes == p && tree == t
    {
      root := r;
      boxes, tree := p, t;
    }

    method RemoveAt(key: nat)
      requires Linked() && RegionAllocator.Ordered(tree)
      modifies this`root, this`freelist, this`boxes, this`tree, this`spare, Nodes(boxes)
      ensures Linked() && Deletable(old(tree), key) && tree == TreeDeletion.Delete(old(tree), key)
      ensures Nodes(boxes) <= old(Nodes(boxes)) && taken == old(taken)
      ensures forall n :: n in spare ==> n in old(spare) || n in old(Nodes(boxes))
    {
      RegionAllocator.RemoveKeepsOrder(tree, key);
      var r;
      ghost var p;
      r, p := Delete(root, key, boxes, tree);
      RecycledTotals(Nodes(boxes), Nodes(p), old(spare), spare);
      SetRoot(r, p, TreeDeletion.Delete(tree, key));
    }

    method LinkNode(node: TreeRegion, ghost leaf: T.Tree)
      requires Owns(root, boxes, tree) && Owns(node, Box(node, NoBox, NoBox), leaf) && node !in Nodes(boxes)
      requires FreelistOk() && Apart(Nodes(boxes) + {node}) && taken == |Nodes(boxes)| + 1 + |spare|
      modifies this`root, this`boxes, this`tree, Nodes(boxes), node
      ensures leaf.Node? && Linked() && tree == T.Recolored(T.InsertNode(old(tree), leaf), T.Black)
      ensures Nodes(boxes) == old(Nodes(boxes)) + {node}
    {
      NodesExist(boxes);
      var r;
      ghost var p;
      r, p := InsertBlack(root, node, boxes, tree, leaf);
      assert FreelistOk();
      SetRoot(r, p, T.Recolored(T.InsertNode(tree, leaf), T.Black));
    }

    /** A recycled node if there is one, apart from the tree and from what is left on the freelist. */
    method ReuseNode(base: nat, size: nat) returns (node: TreeRegion)
      requires Linked()
      modifies this`freelist, this`spare, this`taken, spare
      ensures FreelistOk() && Owns(node, Box(node, NoBox, NoBox), T.NewNode(base, size))
      ensures node !in Nodes(boxes) && Apart(Nodes(boxes) + {node})
      ensures taken == |Nodes(boxes)| + 1 + |spare| && taken == Max(old(taken), |Nodes(boxes)| + 1)
      ensures node in old(spare) || fresh(node)
      ensures forall n :: n in spare ==> n in old(spare)
    {
      ghost var linked := Nodes(boxes);
      NodesExist(boxes);
      node := AllocNode(base, size, |linked|);
      assert Nodes(boxes) == linked;
    }

    /** The same, with the tree as it was. */
    method TakeNode(base: nat, size: nat) returns (node: TreeRegion)
      requires Linked()
      modifies this`freelist, this`spare, this`taken, spare
      ensures Owns(root, boxes, tree)
      ensures FreelistOk() && Owns(node, Box(node, NoBox, NoBox), T.NewNode(base, size))
      ensures node !in Nodes(boxes) && Apart(Nodes(boxes) + {node})
      ensures taken == |Nodes(boxes)| + 1 + |spare| && taken == Max(old(taken), |Nodes(boxes)| + 1)
      ensures node in old(spare) || fresh(node)
      ensures forall n :: n in spare ==> n in old(spare)
    {
      NodesExist(boxes);
      assert forall n :: n in spare ==> n !in Nodes(boxes);
      node := ReuseNode(base, size);
    }

    method Insert(region: Region)
      requires Linked()
      modifies this`root, this`freelist, this`boxes, this`tree, this`spare, this`taken, Nodes(boxes), spare
      ensures Linked() && tree == T.Insert(old(tree), region)
      ensures taken == if region.size == 0 then old(taken) else Max(old(taken), T.Count(tree))
      ensures forall n :: n in Nodes(boxes) ==> n in old(Nodes(boxes)) || n in old(spare) || fresh(n)
      ensures forall n :: n in spare ==> n in old(spare)
    {
      if region.size == 0 {
        return;
      }
      var node := TakeNode(region.base, region.size);
      LinkNode(node, T.NewNode(region.base, region.size));
      NodesCount(root, boxes, tree);
    }

    method RemoveIfAny(key: Option<nat>)
      requires Linked() && RegionAllocator.Ordered(tree)
      modifies this`root, this`freelist, this`boxes, this`tree, this`spare, Nodes(boxes)
      ensures Linked() && tree == RegionAllocator.RemoveIfAny(old(tree), key)
      ensures Nodes(boxes) <= old(Nodes(boxes)) && taken == old(taken)
      ensures forall n :: n in spare ==> n in old(spare) || n in old(Nodes(boxes))
    {
      if key.Some? {
        RemoveAt(key.value);
      }
    }

    /** The merge of the freed range with its neighbours; the asserts rule out a 64-bit overflow. */
    method PlanFree(base: nat, size: nat) returns (m: Merge)
      requires Linked() && StrictlySorted(T.Inorder(tree))
      requires base + size < ADDRESS_SPACE && Within(T.Inorder(tree), ADDRESS_SPACE - 1)
      ensures m == FreeMerge(T.Inorder(tree), base, size)
    {
      var newBase, newSize, predKey, succKey := base, size, None, None;
      RegionAllocator.LookupsAreNeighbours(tree, base);
      NodesExist(boxes);
      var p := TreeOperations.Predecessor(root, base, boxes, tree);
      if p != null && p.End() >= newBase {
        newBase := p.base;
        assert newBase + newSize < ADDRESS_SPACE;
        newSize := Max(newBase + newSize, p.End()) - newBase;
        predKey := Some(p.base);
      }
      ghost var merged := MergePredecessor(RegionAllocator.PredecessorIn(tree, base, None), base, size);
      assert merged == Merge(newBase, newSize, predKey, None);
      var s := TreeOperations.Successor(root, base, boxes, tree);
      assert newBase + newSize < ADDRESS_SPACE;
      if s != null && newBase + newSize >= s.base {
        newSize := s.base + s.size - newBase;
        succKey := Some(s.base);
      }
      m := Merge(newBase, newSize, predKey, succKey);
      assert m == MergeSuccessor(merged, RegionAllocator.SuccessorIn(tree, base, None));
    }

    /** Takes the merged neighbours out and puts the merged region in. */
    method ApplyMerge(m: Merge)
      requires Linked() && RegionAllocator.Ordered(tree)
      modifies this`root, this`freelist, this`boxes, this`tree, this`spare, this`taken, Nodes(boxes), spare
      ensures Linked() && tree == MergeApplied(old(tree), m)
      ensures taken == if m.size == 0 then old(taken) else Max(old(taken), T.Count(tree))
      ensures forall n :: n in Nodes(boxes) || n in spare ==> n in old(Nodes(boxes)) || n in old(spare) || fresh(n)
    {
      RemoveIfAny(m.predKey);
      RemoveIfAny(m.succKey);
      Insert(Region(m.base, m.size));
    }

    /** Gives a block in use back. A merge never takes a new node. */
    method Free(base: nat, size: nat)
      requires Valid() && InUse(T.Inorder(tree), Region(base, size))
      requires base + size < ADDRESS_SPACE && Within(T.Inorder(tree), ADDRESS_SPACE - 1)
      modifies this`root, this`freelist, this`boxes, this`tree, this`spare, this`taken, Nodes(boxes), spare
      ensures Valid() && StrictlySorted(old(T.Inorder(tree))) && tree == RegionAllocator.Free(old(tree), base, size)
      ensures taken == Max(old(taken), T.Count(tree))
      ensures var m := FreeMerge(old(T.Inorder(tree)), base, size);
        m.predKey.Some? || m.succKey.Some? ==> taken == old(taken)
      ensures forall n :: n in Nodes(boxes) || n in spare ==> n in old(Nodes(boxes)) || n in old(spare) || fresh(n)
    {
      FreeKeepsValid(tree, base, size);
      NodesCount(root, boxes, tree);
      NodesExist(boxes);
      var m := PlanFree(base, size);
      ApplyMerge(m);
      NodesCount(root, boxes, tree);
    }

    /** Constrained first fit. */
    method Alloc(size: nat, align: nat, maxAddress: Option<nat>, boundary: Option<nat>) returns (out: Option<nat>)
      requires Valid() && Request(size, align, maxAddress, boundary).Sound()
      requires PowerOfTwo(align) && (boundary.Some? ==> PowerOfTwo(boundary.value))
      requires Representable(T.Inorder(tree), Request(size, align, maxAddress, boundary), phys)
      modifies this`root, this`boxes, this`tree, Nodes(boxes)
      ensures Valid() && taken == old(taken) && spare == old(spare) && boxes == old(boxes)
      ensures var (t, address) := FirstFit.Alloc(old(tree), Request(size, align, maxAddress, boundary), phys);
        tree == t && out == address
    {
      ghost var q := Request(size, align, maxAddress, boundary);
      AllocKeepsValid(tree, q, phys);
      NodesCount(root, boxes, tree);
      var r;
      r, out := AllocNodes(root, size, align, maxAddress, boundary, phys, boxes, tree);
      Blacken(r, boxes, FirstFit.AllocRec(tree, q, phys).0);
      SetRoot(r, boxes, FirstFit.Alloc(tree, q, phys).0);
    }
  }

  lemma FreeKeepsValid(t: T.Tree, base: nat, size: nat)
    requires T.LlrbUpToRoot(t) && MaxExact(t) && InUse(T.Inorder(t), Region(base, size))
    ensures RegionAllocator.Ordered(t)
    ensures var u := RegionAllocator.Free(t, base, size);
      var m := FreeMerge(T.Inorder(t), base, size);
      && T.LlrbUpToRoot(u) && MaxExact(u) && Separated(T.Inorder(u)) && u == MergeApplied(t, m)
      && (m.predKey.Some? || m.succKey.Some? ==> T.Count(u) <= T.Count(t))
  {
    SeparatedIsSorted(T.Inorder(t));
    RegionAllocator.FreeRefinesRegions(t, base, size);
    RegionAllocator.MergingDoesNotGrow(t, base, size);
    FreeKeepsSeparation(T.Inorder(t), Region(base, size));
  }

  lemma AllocKeepsValid(t: T.Tree, q: Request, phys: nat -> nat)
    requires q.Sound() && T.LlrbUpToRoot(t) && MaxExact(t) && Separated(T.Inorder(t))
    ensures var u := FirstFit.Alloc(t, q, phys).0;
      T.LlrbUpToRoot(u) && MaxExact(u) && Separated(T.Inorder(u))
  {
    var s := System(t, [], 0);
    AllocStep(s, q, phys, 0);
  }
}
