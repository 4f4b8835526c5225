/** The boxed tree nodes, and the operations that relink, recolour and re-index them in place. */
module TreeNodes {
  import opened Arithmetic
  import T = RegionTree

  class TreeRegion {
    var base: nat
    var size: nat
    var color: T.Color
    var maxSize: nat
    var left: TreeRegion?
    var right: TreeRegion?

    constructor (base: nat, size: nat)
      ensures this.base == base && this.size == size && this.color == T.Red && this.maxSize == size
      ensures left == null && right == null
    {
      this.base, this.size, this.color, this.maxSize := base, size, T.Red, size;
      this.left, this.right := null, null;
    }

    function End(): nat
      reads this
    {
      base + size
    }
  }

  // ---------- Which nodes make up a subtree, and which tree they stand for ----------

  /** The boxes of a subtree, in the shape of the tree. */
  datatype Boxes = NoBox | Box(node: TreeRegion, left: Boxes, right: Boxes)

  ghost function Nodes(o: Boxes): set<TreeRegion> {
    if o.NoBox? then {} else {o.node} + Nodes(o.left) + Nodes(o.right)
  }

  /** No node is linked in twice. */
  ghost predicate Distinct(o: Boxes) {
    o.Box? ==>
      && o.node !in Nodes(o.left) && o.node !in Nodes(o.right) && Nodes(o.left) !! Nodes(o.right)
      && Distinct(o.left) && Distinct(o.right)
  }

  /** The links and fields of the boxes `o` below `n` spell out the tree `t`. */
  ghost predicate Holds(n: TreeRegion?, o: Boxes, t: T.Tree)
    reads Nodes(o)
    decreases o
  {
    match o
    case NoBox => n == null && t == T.Nil
    case Box(x, l, r) =>
      && n == x && t.Node? && x.base == t.base && x.size == t.size && x.color == t.color && x.maxSize == t.maxSize
      && Holds(x.left, l, t.left) && Holds(x.right, r, t.right)
  }

  /** `n` owns the subtree `t`, stored in the boxes `o`. */
  ghost predicate Owns(n: TreeRegion?, o: Boxes, t: T.Tree)
    reads Nodes(o)
  {
    Distinct(o) && Holds(n, o, t)
  }

  /** Nodes named by a value in scope exist already, so no later allocation is one of them. */
  lemma {:induction false} NodesExist(o: Boxes)
    ensures forall n :: n in Nodes(o) ==> allocated(n)
  {
    if o.NoBox? {
    } else {
      NodesExist(o.left);
      NodesExist(o.right);
    }
  }

  /** The parts of a subtree are owned subtrees themselves, and share no node. */
  lemma Parts(n: TreeRegion?, o: Boxes, t: T.Tree)
    requires Owns(n, o, t) && (n != null || o.Box? || t.Node?)
    ensures n != null && o.Box? && t.Node? && o.node == n
    ensures n.base == t.base && n.size == t.size && n.color == t.color && n.maxSize == t.maxSize
    ensures Owns(n.left, o.left, t.left) && Owns(n.right, o.right, t.right)
    ensures n !in Nodes(o.left) && n !in Nodes(o.right) && Nodes(o.left) !! Nodes(o.right)
    ensures Nodes(o) == {n} + Nodes(o.left) + Nodes(o.right)
    ensures (n.left == null <==> t.left.Nil?) && (n.right == null <==> t.right.Nil?)
    ensures (n.left == null <==> o.left.NoBox?) && (n.right == null <==> o.right.NoBox?)
    ensures forall m :: m in Nodes(o) ==> allocated(m)
  {
    NodesExist(o);
  }

  lemma {:induction false} NodesCount(n: TreeRegion?, o: Boxes, t: T.Tree)
    requires Owns(n, o, t)
    ensures |Nodes(o)| == T.Count(t)
    decreases o
  {
    if o.NoBox? {
    } else {
      NodesCount(o.node.left, o.left, t.left);
      NodesCount(o.node.right, o.right, t.right);
      assert |Nodes(o.left) + Nodes(o.right)| == |Nodes(o.left)| + |Nodes(o.right)|;
      assert Nodes(o) == {o.node} + (Nodes(o.left) + Nodes(o.right));
    }
  }

  lemma RotatedLeftBoxes(o: Boxes)
    requires o.Box? && o.right.Box? && Distinct(o)
    ensures var p := Box(o.right.node, Box(o.node, o.left, o.right.left), o.right.right);
      Distinct(p) && Nodes(p) == Nodes(o)
  {
    assert Distinct(Box(o.node, o.left, o.right.left));
  }

  lemma RotatedRightBoxes(o: Boxes)
    requires o.Box? && o.left.Box? && Distinct(o)
    ensures var p := Box(o.left.node, o.left.left, Box(o.node, o.left.right, o.right));
      Distinct(p) && Nodes(p) == Nodes(o)
  {
    assert Distinct(Box(o.node, o.left.right, o.right));
  }

  predicate IsRed(n: TreeRegion?)
    reads n
  {
    n != null && n.color == T.Red
  }

  // ---------- Index, rotations and colour flips ----------

  method UpdateMaxSize(n: TreeRegion, ghost o: Boxes, ghost t: T.Tree)
    requires Owns(n, o, t)
    modifies n`maxSize
    ensures t.Node? && Owns(n, o, T.UpdateMax(t))
  {
    assert Holds(n.left, o.left, t.left) && Holds(n.right, o.right, t.right);
    var max := n.size;
    if n.left != null {
      max := Max(max, n.left.maxSize);
    }
    if n.right != null {
      max := Max(max, n.right.maxSize);
    }
    n.maxSize := max;
    assert Holds(n.left, o.left, t.left) && Holds(n.right, o.right, t.right);
  }

  /** The second half of a left rotation: `x` takes `h` as its red left child, and its colour. */
  method HangLeft(x: TreeRegion, h: TreeRegion, ghost o: Boxes, ghost t: T.Tree, ghost c: Boxes, ghost r: T.Tree)
    requires Owns(h, o, t) && Owns(x.right, c, r)
    requires x !in Nodes(o) && x !in Nodes(c) && Nodes(o) !! Nodes(c)
    modifies x, h`color
    ensures t.Node?
    ensures Owns(x, Box(x, o, c), T.UpdateMax(T.Node(old(x.base), old(x.size), t.color, old(x.maxSize), t.(color := T.Red), r)))
  {
    Parts(h, o, t);
    x.left := h;
    x.color := x.left.color;
    x.left.color := T.Red;
    assert Owns(h.left, o.left, t.left) && Owns(h.right, o.right, t.right) && Owns(x.right, c, r);
    assert Owns(h, o, t.(color := T.Red));
    UpdateMaxSize(x, Box(x, o, c), T.Node(x.base, x.size, x.color, x.maxSize, t.(color := T.Red), r));
  }

  method HangRight(x: TreeRegion, h: TreeRegion, ghost o: Boxes, ghost t: T.Tree, ghost c: Boxes, ghost l: T.Tree)
    requires Owns(h, o, t) && Owns(x.left, c, l)
    requires x !in Nodes(o) && x !in Nodes(c) && Nodes(o) !! Nodes(c)
    modifies x, h`color
    ensures t.Node?
    ensures Owns(x, Box(x, c, o), T.UpdateMax(T.Node(old(x.base), old(x.size), t.color, old(x.maxSize), l, t.(color := T.Red))))
  {
    Parts(h, o, t);
    x.right := h;
    x.color := x.right.color;
    x.right.color := T.Red;
    assert Owns(h.left, o.left, t.left) && Owns(h.right, o.right, t.right) && Owns(x.left, c, l);
    assert Owns(h, o, t.(color := T.Red));
    UpdateMaxSize(x, Box(x, c, o), T.Node(x.base, x.size, x.color, x.maxSize, l, t.(color := T.Red)));
  }

  method RotateLeft(h: TreeRegion, ghost o: Boxes, ghost t: T.Tree) returns (x: TreeRegion, ghost p: Boxes)
    requires Owns(h, o, t) && t.Node? && t.right.Node?
    modifies Nodes(o)
    ensures Owns(x, p, T.RotateLeft(t)) && Nodes(p) == Nodes(o)
  {
    Parts(h, o, t);
    Parts(h.right, o.right, t.right);
    x := h.right;
    ghost var low := Box(h, o.left, o.right.left);
    ghost var lowTree := t.(right := t.right.left);
    RotatedLeftBoxes(o);
    h.right := x.left;
    assert Owns(h.left, o.left, t.left) && Owns(h.right, o.right.left, t.right.left);
    UpdateMaxSize(h, low, lowTree);
    assert Owns(x.right, o.right.right, t.right.right);
    HangLeft(x, h, low, T.UpdateMax(lowTree), o.right.right, t.right.right);
    p := Box(x, low, o.right.right);
  }

  method RotateRight(h: TreeRegion, ghost o: Boxes, ghost t: T.Tree) returns (x: TreeRegion, ghost p: Boxes)
    requires Owns(h, o, t) && t.Node? && t.left.Node?
    modifies Nodes(o)
    ensures Owns(x, p, T.RotateRight(t)) && Nodes(p) == Nodes(o)
  {
    Parts(h, o, t);
    Parts(h.left, o.left, t.left);
    x := h.left;
    ghost var low := Box(h, o.left.right, o.right);
    ghost var lowTree := t.(left := t.left.right);
    RotatedRightBoxes(o);
    h.left := x.right;
    assert Owns(h.left, o.left.right, t.left.right) && Owns(h.right, o.right, t.right);
    UpdateMaxSize(h, low, lowTree);
    assert Owns(x.left, o.left.left, t.left.left);
    HangRight(x, h, low, T.UpdateMax(lowTree), o.left.left, t.left.left);
    p := Box(x, o.left.left, low);
  }

  method ToggleColor(n: TreeRegion?, ghost o: Boxes, ghost t: T.Tree)
    requires Owns(n, o, t)
    modifies Nodes(o)
    ensures Owns(n, o, T.Toggled(t))
  {
    if n != null {
      assert Holds(n.left, o.left, t.left) && Holds(n.right, o.right, t.right);
      match n.color {
        case Red => n.color := T.Black;
        case Black => n.color := T.Red;
      }
      assert Holds(n.left, o.left, t.left) && Holds(n.right, o.right, t.right);
    }
  }

  method FlipColors(h: TreeRegion, ghost o: Boxes, ghost t: T.Tree)
    requires Owns(h, o, t)
    modifies Nodes(o)
    ensures t.Node? && Owns(h, o, T.FlipColors(t))
  {
    Parts(h, o, t);
    h.color := T.Toggle(h.color);
    assert Owns(h.left, o.left, t.left) && Owns(h.right, o.right, t.right);
    ToggleColor(h.left, o.left, t.left);
    assert Owns(h.right, o.right, t.right);
    ToggleColor(h.right, o.right, t.right);
    assert Owns(h.left, o.left, T.Toggled(t.left));
  }
}
