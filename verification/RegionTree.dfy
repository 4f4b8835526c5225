/** The red-black tree of free regions as a value, and every operation the allocator performs on it. */
module RegionTree {
  import opened Arithmetic
  import opened Regions

  datatype Color = Red | Black

  datatype Tree =
    | Nil
    | Node(base: nat, size: nat, color: Color, maxSize: nat, left: Tree, right: Tree)

  function Toggle(c: Color): Color { if c == Red then Black else Red }

  predicate IsRed(t: Tree) { t.Node? && t.color == Red }

  function StoredMax(t: Tree): nat { if t.Nil? then 0 else t.maxSize }

  function Inorder(t: Tree): seq<Region> {
    if t.Nil? then [] else Inorder(t.left) + [Region(t.base, t.size)] + Inorder(t.right)
  }

  function Count(t: Tree): nat {
    if t.Nil? then 0 else Count(t.left) + 1 + Count(t.right)
  }

  function Height(t: Tree): nat {
    if t.Nil? then 0 else 1 + Max(Height(t.left), Height(t.right))
  }

  function NewNode(base: nat, size: nat): Tree { Node(base, size, Red, size, Nil, Nil) }

  function Recolored(t: Tree, c: Color): Tree { if t.Nil? then Nil else t.(color := c) }

  function Toggled(t: Tree): Tree { if t.Nil? then Nil else t.(color := Toggle(t.color)) }

  function UpdateMax(n: Tree): (r: Tree)
    requires n.Node?
    ensures r.Node?
  {
    n.(maxSize := Max(Max(n.size, StoredMax(n.left)), StoredMax(n.right)))
  }

  function RotateLeft(h: Tree): (x: Tree)
    requires h.Node? && h.right.Node?
    ensures x.Node? && Count(x) == Count(h)
  {
    var lowered := UpdateMax(h.(right := h.right.left));
    UpdateMax(h.right.(left := lowered.(color := Red), color := h.color))
  }

  function RotateRight(h: Tree): (x: Tree)
    requires h.Node? && h.left.Node?
    ensures x.Node? && Count(x) == Count(h)
  {
    var lowered := UpdateMax(h.(left := h.left.right));
    UpdateMax(h.left.(right := lowered.(color := Red), color := h.color))
  }

  function FlipColors(h: Tree): (x: Tree)
    requires h.Node?
    ensures x.Node? && Count(x) == Count(h)
  {
    h.(color := Toggle(h.color), left := Toggled(h.left), right := Toggled(h.right))
  }

  // ---------- Insertion ----------

  function InsertFixLean(h: Tree): (x: Tree)
    requires h.Node?
    ensures x.Node? && Count(x) == Count(h)
  {
    if IsRed(h.right) && !IsRed(h.left) then RotateLeft(h) else h
  }

  function FixRedRed(h: Tree): (x: Tree)
    requires h.Node?
    ensures x.Node? && Count(x) == Count(h)
  {
    if IsRed(h.left) && IsRed(h.left.left) then RotateRight(h) else h
  }

  function FixTwoRed(h: Tree): (x: Tree)
    requires h.Node?
    ensures x.Node? && Count(x) == Count(h)
  {
    if IsRed(h.left) && IsRed(h.right) then FlipColors(h) else h
  }

  function InsertFix(h: Tree): (x: Tree)
    requires h.Node?
    ensures x.Node? && Count(x) == Count(h)
  {
    UpdateMax(FixTwoRed(FixRedRed(InsertFixLean(h))))
  }

  function InsertNode(h: Tree, node: Tree): (x: Tree)
    requires node.Node?
    ensures x.Node?
  {
    if h.Nil? then node
    else if node.base < h.base then InsertFix(h.(left := InsertNode(h.left, node)))
    else InsertFix(h.(right := InsertNode(h.right, node)))
  }

  function Insert(root: Tree, r: Region): Tree {
    if r.size == 0 then root else Recolored(InsertNode(root, NewNode(r.base, r.size)), Black)
  }

  // ---------- Deletion ----------

  function FixUpLean(h: Tree): (x: Tree)
    requires h.Node?
    ensures x.Node? && Count(x) == Count(h)
  {
    if IsRed(h.right) then RotateLeft(h) else h
  }

  function FixUp(h: Tree): (x: Tree)
    requires h.Node?
    ensures x.Node? && Count(x) == Count(h)
  {
    UpdateMax(FixTwoRed(FixRedRed(FixUpLean(h))))
  }

  function MoveRedLeft(h: Tree): (x: Tree)
    requires h.Node? && h.right.Node?
    ensures x.Node? && Count(x) == Count(h)
  {
    var f := FlipColors(h);
    if IsRed(f.right.left) then FlipColors(RotateLeft(f.(right := RotateRight(f.right)))) else f
  }

  function MoveRedRight(h: Tree): (x: Tree)
    requires h.Node? && h.left.Node?
    ensures x.Node? && Count(x) == Count(h)
  {
    var f := FlipColors(h);
    if IsRed(f.left.left) then FlipColors(RotateRight(f)) else f
  }

  /** True of a subtree when its root is black and its left child is no red node either. */
  predicate NeedsRed(t: Tree) { t.Node? && !IsRed(t) && !IsRed(t.left) }

  function BorrowLeft(h: Tree): (x: Tree)
    requires h.Node? && (NeedsRed(h.left) ==> h.right.Node?)
    ensures x.Node? && Count(x) == Count(h)
  {
    if NeedsRed(h.left) then MoveRedLeft(h) else h
  }

  function LeanRight(h: Tree): (x: Tree)
    requires h.Node?
    ensures x.Node? && Count(x) == Count(h)
  {
    if IsRed(h.left) then RotateRight(h) else h
  }

  function BorrowRight(h: Tree): (x: Tree)
    requires h.Node? && (NeedsRed(h.right) ==> h.left.Node?)
    ensures x.Node? && Count(x) == Count(h)
  {
    if NeedsRed(h.right) then MoveRedRight(h) else h
  }

  function MinRegion(h: Tree): Region
    requires h.Node?
  {
    if h.left.Nil? then Region(h.base, h.size) else MinRegion(h.left)
  }

  // ---------- Shape ----------

  /** Black nodes on the leftmost path; with `Llrb` it is the number on every path. */
  function BlackHeight(t: Tree): nat {
    if t.Nil? then 0 else BlackHeight(t.left) + (if t.color == Black then 1 else 0)
  }

  predicate Balanced(t: Tree)
    requires t.Node?
  {
    Llrb(t.left) && Llrb(t.right) && BlackHeight(t.left) == BlackHeight(t.right)
  }

  /** Left-leaning red-black: no red right child, no two reds in a row, equal black heights. */
  predicate Llrb(t: Tree)
    decreases t, 1
  {
    t.Node? ==>
      Llrb(t.left) && Llrb(t.right) && BlackHeight(t.left) == BlackHeight(t.right)
      && !IsRed(t.right) && (t.color == Red ==> !IsRed(t.left))
  }

  /** `Llrb` with the colour of the root itself left open. */
  predicate LlrbUpToRoot(t: Tree) {
    t.Node? ==> Balanced(t) && !IsRed(t.right)
  }
}
