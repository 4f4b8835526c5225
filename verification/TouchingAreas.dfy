/**
 * Three memory areas that touch, seven calls, and one address in two live blocks: without a gap between
 * areas more than the order of the tree can be lost.
 */
module TouchingAreas {
  import opened Wrappers
  import opened Regions
  import opened RegionTree
  import opened FirstFit
  import opened Coalescing
  import opened TreeBoot
  import opened AllocatorRuns
  import opened UncheckedDeletion
  import opened UncheckedRuns

  const AREAS: seq<Region> := [Region(0, 2), Region(2, 3), Region(5, 5)]

  function CALLS(): seq<Call> {
    [AllocCall(Bytes(1)), AllocCall(Bytes(4)), AllocCall(Bytes(1)), FreeCall(0), FreeCall(0),
     AllocCall(Bytes(4)), AllocCall(Bytes(3))]
  }

  function Leaf(base: nat, size: nat, c: Color): Tree { Node(base, size, c, size, Nil, Nil) }

  // The tree after booting and after each call but the last.
  const T0: Tree := Node(2, 3, Black, 5, Leaf(0, 2, Black), Leaf(5, 5, Black))
  const T1: Tree := Node(2, 3, Black, 5, Leaf(1, 1, Black), Leaf(5, 5, Black))
  const T2: Tree := Node(2, 3, Black, 3, Leaf(1, 1, Black), Leaf(9, 1, Black))
  const T3: Tree := Node(2, 3, Black, 3, Leaf(2, 0, Black), Leaf(9, 1, Black))
  const T4: Tree := Node(2, 3, Black, 3, Node(2, 0, Black, 1, Leaf(0, 1, Red), Nil), Leaf(9, 1, Black))
  const T5: Tree := Node(2, 4, Black, 4, Node(2, 3, Red, 3, Leaf(0, 1, Black), Nil), Nil)
  const T6: Tree := Node(6, 0, Black, 3, Node(2, 3, Red, 3, Leaf(0, 1, Black), Nil), Nil)

  lemma Boots()
    ensures BootTree(AREAS) == T0
  {
    var one, two := [Region(0, 2)], [Region(0, 2), Region(2, 3)];
    assert AREAS[..2] == two && two[..1] == one && one[..0] == [];
    assert BootTree(one) == Leaf(0, 2, Black);
    assert BootTree(two) == Node(2, 3, Black, 3, Leaf(0, 2, Red), Nil);
  }

  /** Physical addresses so small that they never make a request fail. */
  ghost predicate Plain(phys: nat -> nat) {
    forall x: nat :: x <= 10 ==> phys(x) + 10 < ADDRESS_SPACE
  }

  lemma FitsHere(base: nat, size: nat, d: nat, phys: nat -> nat)
    requires Plain(phys) && base <= 10 && 0 < d <= 10
    ensures Fits(Region(base, size), Bytes(d), phys) <==> d <= size
    ensures AlignUp(base, 1) == base
    ensures d <= size ==> Carved(Region(base, size), Bytes(d)) == Region(base + d, size - d)
  {
    FitsUnaligned(Region(base, size), d, phys);
  }

  lemma LeafServes(base: nat, size: nat, d: nat, phys: nat -> nat)
    requires Plain(phys) && base <= 10 && 0 < d <= size && d <= 10
    ensures AllocRec(Leaf(base, size, Black), Bytes(d), phys) == (Leaf(base + d, size - d, Black), Some(base))
  {
    FitsHere(base, size, d, phys);
  }

  /** The search goes left, and the left subtree serves. */
  lemma LeftServes(t: Tree, q: Request, l: Tree, at: nat, phys: nat -> nat)
    requires q.Sound() && t.Node? && t.left.Node? && t.left.maxSize >= q.size && AllocRec(t.left, q, phys) == (l, Some(at))
    ensures Alloc(t, q, phys) == (UpdateMax(t.(left := l)).(color := Black), Some(at))
  {
  }

  /** The search passes the left subtree and the node by. */
  lemma RightServes(t: Tree, q: Request, r: Tree, at: nat, phys: nat -> nat)
    requires q.Sound() && t.Node? && StoredMax(t.left) < q.size && !Fits(Region(t.base, t.size), q, phys)
    requires t.right.Node? && t.right.maxSize >= q.size && AllocRec(t.right, q, phys) == (r, Some(at))
    ensures Alloc(t, q, phys) == (UpdateMax(t.(right := r)).(color := Black), Some(at))
  {
  }

  /** The search passes the left subtree by and is served from the node. */
  lemma NodeServes(t: Tree, q: Request, phys: nat -> nat)
    requires q.Sound() && t.Node? && StoredMax(t.left) < q.size && Fits(Region(t.base, t.size), q, phys)
    ensures var c := Carved(Region(t.base, t.size), q);
      && AllocRec(t, q, phys) == (UpdateMax(t.(base := c.base, size := c.size)), Some(AlignUp(t.base, q.align)))
      && Alloc(t, q, phys).1 == Some(AlignUp(t.base, q.align))
      && Alloc(t, q, phys).0 == UpdateMax(t.(base := c.base, size := c.size, color := Black))
  {
  }

  lemma FirstCall(phys: nat -> nat)
    requires Plain(phys)
    ensures Alloc(T0, Bytes(1), phys) == (T1, Some(0))
  {
    LeafServes(0, 2, 1, phys);
    LeftServes(T0, Bytes(1), Leaf(1, 1, Black), 0, phys);
  }

  lemma SecondCall(phys: nat -> nat)
    requires Plain(phys)
    ensures Alloc(T1, Bytes(4), phys) == (T2, Some(5))
  {
    FitsHere(2, 3, 4, phys);
    LeafServes(5, 5, 4, phys);
    RightServes(T1, Bytes(4), Leaf(9, 1, Black), 5, phys);
  }

  /** Now two nodes begin at 2. */
  lemma ThirdCall(phys: nat -> nat)
    requires Plain(phys)
    ensures Alloc(T2, Bytes(1), phys) == (T3, Some(1))
  {
    LeafServes(1, 1, 1, phys);
    LeftServes(T2, Bytes(1), Leaf(2, 0, Black), 1, phys);
  }

  lemma FirstFree()
    ensures TryFree(T3, 0, 1) == Some(T4)
  {
    assert TryMerge(T3, 0, 1) == Merge(0, 1, None, None);
  }

  /**
   * The predecessor of the freed block is (2,3), but the node that goes is (2,0), and the minimum
   * taken out of the right subtree has a right child that goes with it.
   */
  lemma WrongNodeGoes()
    ensures TryDelete(T4, 2) == Some(Node(2, 3, Black, 3, Leaf(0, 1, Black), Nil))
  {
    var m := Node(2, 0, Black, 1, Leaf(0, 1, Black), Node(2, 3, Black, 3, Nil, Leaf(9, 1, Red)));
    assert LeanRight(T4) == T4;
    assert MoveRedRight(T4).left == m.left && MoveRedRight(T4).right.left == m.right.left;
    assert TryDeleteMin(MoveRedRight(T4).right) == Some(Nil);
  }

  lemma SecondFree()
    ensures TryFree(T4, 5, 4) == Some(T5)
  {
    assert TryMerge(T4, 5, 4) == Merge(2, 4, Some(2), None);
    WrongNodeGoes();
    var d := Node(2, 3, Black, 3, Leaf(0, 1, Black), Nil);
    assert InsertNode(Nil, NewNode(2, 4)) == NewNode(2, 4);
    assert InsertNode(d, NewNode(2, 4)) == T5;
  }

  /** The same bytes are free twice now, and are handed out twice. */
  lemma SixthCall(phys: nat -> nat)
    requires Plain(phys)
    ensures Alloc(T5, Bytes(4), phys) == (T6, Some(2))
  {
    FitsHere(2, 4, 4, phys);
    NodeServes(T5, Bytes(4), phys);
  }

  lemma SeventhCall(phys: nat -> nat)
    requires Plain(phys)
    ensures Alloc(T6, Bytes(3), phys).1 == Some(2)
  {
    FitsHere(2, 3, 3, phys);
    NodeServes(T6.left, Bytes(3), phys);
    LeftServes(T6, Bytes(3), AllocRec(T6.left, Bytes(3), phys).0, 2, phys);
  }

  lemma AllocNext(t: Tree, live: seq<Region>, d: nat, u: Tree, now: seq<Region>, at: nat, rest: seq<Call>, phys: nat -> nat)
    requires d > 0 && Alloc(t, Bytes(d), phys) == (u, Some(at)) && now == live + [Region(at, d)]
    ensures RunFrom(Running(t, live), [AllocCall(Bytes(d))] + rest, phys) == RunFrom(Running(u, now), rest, phys)
  {
    assert ([AllocCall(Bytes(d))] + rest)[1..] == rest;
  }

  lemma FreeNext(t: Tree, b: Region, live: seq<Region>, u: Tree, rest: seq<Call>, phys: nat -> nat)
    requires TryFree(t, b.base, b.size) == Some(u)
    ensures RunFrom(Running(t, [b] + live), [FreeCall(0)] + rest, phys) == RunFrom(Running(u, live), rest, phys)
  {
    assert ([FreeCall(0)] + rest)[1..] == rest;
    assert Without([b] + live, 0) == live;
  }

  // What is left of the seven calls after the first, second, third and fifth.
  const AFTER1: seq<Call> := [AllocCall(Bytes(4))] + AFTER2
  const AFTER2: seq<Call> := [AllocCall(Bytes(1))] + AFTER3
  const AFTER3: seq<Call> := [FreeCall(0)] + ([FreeCall(0)] + AFTER5)
  const AFTER5: seq<Call> := [AllocCall(Bytes(4))] + ([AllocCall(Bytes(3))] + [])

  lemma CallsSplit()
    ensures CALLS() == [AllocCall(Bytes(1))] + AFTER1
  {
  }

  lemma First(phys: nat -> nat)
    requires Plain(phys)
    ensures RunFrom(Running(T0, []), [AllocCall(Bytes(1))] + AFTER1, phys)
         == RunFrom(Running(T1, [Region(0, 1)]), AFTER1, phys)
  {
    FirstCall(phys);
    AllocNext(T0, [], 1, T1, [Region(0, 1)], 0, AFTER1, phys);
  }

  lemma Second(phys: nat -> nat)
    requires Plain(phys)
    ensures RunFrom(Running(T1, [Region(0, 1)]), AFTER1, phys)
         == RunFrom(Running(T2, [Region(0, 1), Region(5, 4)]), AFTER2, phys)
  {
    SecondCall(phys);
    AllocNext(T1, [Region(0, 1)], 4, T2, [Region(0, 1), Region(5, 4)], 5, AFTER2, phys);
  }

  lemma Third(phys: nat -> nat)
    requires Plain(phys)
    ensures RunFrom(Running(T2, [Region(0, 1), Region(5, 4)]), AFTER2, phys)
         == RunFrom(Running(T3, [Region(0, 1), Region(5, 4), Region(1, 1)]), AFTER3, phys)
  {
    ThirdCall(phys);
    AllocNext(T2, [Region(0, 1), Region(5, 4)], 1, T3, [Region(0, 1), Region(5, 4), Region(1, 1)], 1, AFTER3, phys);
  }

  lemma FourthAndFifth(phys: nat -> nat)
    ensures RunFrom(Running(T3, [Region(0, 1), Region(5, 4), Region(1, 1)]), AFTER3, phys)
         == RunFrom(Running(T5, [Region(1, 1)]), AFTER5, phys)
  {
    FirstFree();
    SecondFree();
    FreeNext(T3, Region(0, 1), [Region(5, 4), Region(1, 1)], T4, [FreeCall(0)] + AFTER5, phys);
    FreeNext(T4, Region(5, 4), [Region(1, 1)], T5, AFTER5, phys);
  }

  lemma LastTwo(phys: nat -> nat)
    requires Plain(phys)
    ensures RunFrom(Running(T5, [Region(1, 1)]), AFTER5, phys)
         == Running(Alloc(T6, Bytes(3), phys).0, [Region(1, 1), Region(2, 4), Region(2, 3)])
  {
    SixthCall(phys);
    SeventhCall(phys);
    var last := Alloc(T6, Bytes(3), phys).0;
    AllocNext(T5, [Region(1, 1)], 4, T6, [Region(1, 1), Region(2, 4)], 2, [AllocCall(Bytes(3))] + [], phys);
    AllocNext(T6, [Region(1, 1), Region(2, 4)], 3, last, [Region(1, 1), Region(2, 4), Region(2, 3)], 2, [], phys);
  }

  lemma AllSeven(phys: nat -> nat)
    requires Plain(phys)
    ensures RunFrom(Running(T0, []), CALLS(), phys)
         == Running(Alloc(T6, Bytes(3), phys).0, [Region(1, 1), Region(2, 4), Region(2, 3)])
  {
    CallsSplit();
    First(phys);
    Second(phys);
    Third(phys);
    FourthAndFifth(phys);
    LastTwo(phys);
  }

  lemma SharedAddress()
    ensures !PairwiseApart([Region(1, 1), Region(2, 4), Region(2, 3)])
  {
    var live := [Region(1, 1), Region(2, 4), Region(2, 3)];
    assert !Apart(live[1], live[2]);
  }

  /** After the seven calls address 2 belongs to two live blocks. */
  lemma TouchingAreasAreUnsafe(phys: nat -> nat)
    requires Plain(phys)
    ensures var s := RunFrom(BootState(AREAS), CALLS(), phys);
      && s.Running? && s.live == [Region(1, 1), Region(2, 4), Region(2, 3)]
      && !PairwiseApart(s.live)
  {
    Boots();
    AllSeven(phys);
    SharedAddress();
  }
}
