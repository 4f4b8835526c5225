/** Constrained first-fit allocation: the linear scan, the pruned tree search, and their agreement. */
module FirstFit {
  import opened Wrappers
  import opened Arithmetic
  import opened Words
  import opened Regions
  import opened RegionTree
  import opened SizeIndex

  /** The number of addresses a 64-bit `usize` can name. */
  const ADDRESS_SPACE: nat := 0x1_0000_0000_0000_0000

  datatype Request = Request(size: nat, align: nat, maxAddress: Option<nat>, boundary: Option<nat>) {
    predicate Sound() {
      size > 0 && align > 0 && (boundary.Some? ==> boundary.value > 0)
    }

    function Limit(): nat {
      match maxAddress
      case Some(a) => a
      case None => ADDRESS_SPACE - 1
    }
  }

  /** The first multiple of `align` at or behind `x`. */
  function AlignUp(x: nat, align: nat): (y: nat)
    requires align > 0
    ensures x <= y < x + align && y % align == 0
  {
    var y := (x + (align - 1)) / align * align;
    AlignUpBounds(x, align);
    y
  }

  lemma AlignUpBounds(x: nat, align: nat)
    requires align > 0
    ensures var y := (x + (align - 1)) / align * align; x <= y < x + align && y % align == 0
  {
    var q := (x + (align - 1)) / align;
    assert x + (align - 1) == q * align + (x + (align - 1)) % align;
    DivModUnique(q * align, align, q, 0);
  }

  /** All of `size` bytes from `at` lie between two multiples of `boundary`. */
  predicate OneWindow(at: nat, size: nat, boundary: nat)
    requires size > 0 && boundary > 0
  {
    at / boundary == (at + size - 1) / boundary
  }

  predicate Fits(r: Region, q: Request, phys: nat -> nat)
    requires q.Sound()
  {
    var aligned := AlignUp(r.base, q.align);
    && r.size >= aligned - r.base + q.size
    && phys(aligned) + q.size <= q.Limit()
    && (q.boundary.Some? ==> OneWindow(aligned, q.size, q.boundary.value))
  }

  /** One window means that every byte of the block is in it. */
  lemma WindowOfBytes(at: nat, size: nat, b: nat)
    requires size > 0 && b > 0
    ensures OneWindow(at, size, b) <==> forall x :: at <= x < at + size ==> x / b == at / b
  {
    if OneWindow(at, size, b) {
      forall x | at <= x < at + size ensures x / b == at / b {
        DivMonotone(at, x, b);
        DivMonotone(x, at + size - 1, b);
      }
    } else {
      var last := at + size - 1;
      assert at <= last < at + size && last / b != at / b;
    }
  }

  /**
   * A block at `at` in the region would serve the request: it lies in the region, ends physically at or
   * below the limit or else inside 64 bits, and has all its bytes in one window.
   */
  ghost predicate ServesAt(r: Region, at: nat, q: Request, phys: nat -> nat)
    requires q.Sound()
  {
    && r.base <= at && at + q.size <= r.End()
    && (match q.maxAddress
        case Some(max) => phys(at) + q.size <= max
        case None => phys(at) + q.size < 0x1_0000_0000_0000_0000)
    && (q.boundary.Some? ==> forall x :: at <= x < at + q.size ==> x / q.boundary.value == at / q.boundary.value)
  }

  /** The test passes exactly when a block at the first aligned address would serve. */
  lemma FitsExactlyWhen(r: Region, at: nat, q: Request, phys: nat -> nat)
    requires q.Sound() && at % q.align == 0 && r.base <= at < r.base + q.align
    ensures AlignUp(r.base, q.align) == at
    ensures Fits(r, q, phys) <==>
      && at + q.size <= r.End()
      && (q.maxAddress.Some? ==> phys(at) + q.size <= q.maxAddress.value)
      && (q.maxAddress.None? ==> phys(at) + q.size < 0x1_0000_0000_0000_0000)
      && (q.boundary.Some? ==> forall x :: at <= x < at + q.size ==> x / q.boundary.value == at / q.boundary.value)
    ensures Fits(r, q, phys) <==> ServesAt(r, at, q, phys)
  {
    OnlyAligned(r.base, q.align, at, AlignUp(r.base, q.align));
    if q.boundary.Some? { WindowOfBytes(at, q.size, q.boundary.value); }
  }

  /** One multiple of `align` lies in `align` consecutive numbers. */
  lemma OnlyAligned(x: nat, align: nat, a: nat, b: nat)
    requires align > 0 && a % align == 0 && b % align == 0 && x <= a < x + align && x <= b < x + align
    ensures a == b
  {
    var d := a / align - b / align;
    assert a == a / align * align && b == b / align * align;
    assert d * align == a - b;
    if d != 0 { NonZeroMultiple(d, align); }
  }

  /** What is left of a region once the padding and the block are taken from its front. */
  function Carved(r: Region, q: Request): Region
    requires q.Sound() && r.size >= AlignUp(r.base, q.align) - r.base + q.size
  {
    var consumed := AlignUp(r.base, q.align) - r.base + q.size;
    Region(r.base + consumed, r.size - consumed)
  }

  // ---------- The linear scan ----------

  /** Walks the regions in address order: the address in the first one that fits. */
  function ScanAddress(s: seq<Region>, q: Request, phys: nat -> nat): Option<nat>
    requires q.Sound()
  {
    if s == [] then None
    else if Fits(s[0], q, phys) then Some(AlignUp(s[0].base, q.align))
    else ScanAddress(s[1..], q, phys)
  }

  /** The regions left behind once the block is carved out of the first one that fits. */
  function ScanRegions(s: seq<Region>, q: Request, phys: nat -> nat): seq<Region>
    requires q.Sound()
  {
    if s == [] then []
    else if Fits(s[0], q, phys) then [Carved(s[0], q)] + s[1..]
    else [s[0]] + ScanRegions(s[1..], q, phys)
  }

  lemma {:induction false} ScanSplit(a: seq<Region>, x: Region, b: seq<Region>, q: Request, phys: nat -> nat)
    requires q.Sound()
    ensures ScanAddress(a + [x] + b, q, phys) ==
      if ScanAddress(a, q, phys).Some? then ScanAddress(a, q, phys)
      else if Fits(x, q, phys) then Some(AlignUp(x.base, q.align))
      else ScanAddress(b, q, phys)
    ensures ScanRegions(a + [x] + b, q, phys) ==
      if ScanAddress(a, q, phys).Some? then ScanRegions(a, q, phys) + [x] + b
      else if Fits(x, q, phys) then a + [Carved(x, q)] + b
      else a + [x] + ScanRegions(b, q, phys)
  {
    var s := a + [x] + b;
    if a == [] {
      assert s == [x] + b && s[1..] == b;
    } else {
      assert s[1..] == a[1..] + [x] + b && s[0] == a[0];
      ScanSplit(a[1..], x, b, q, phys);
      assert a == [a[0]] + a[1..];
    }
  }

  /** Index `i` is where the scan serves a request from. */
  ghost predicate ServedFrom(s: seq<Region>, i: nat, q: Request, phys: nat -> nat)
    requires q.Sound()
  {
    && i < |s| && Fits(s[i], q, phys)
    && forall j :: 0 <= j < i ==> !Fits(s[j], q, phys)
  }

  /** The scan serves the first region that fits, touches no other, and gives up only if none fits. */
  lemma {:induction false} ScanIsFirstFit(s: seq<Region>, q: Request, phys: nat -> nat) returns (i: nat)
    requires q.Sound()
    ensures ScanAddress(s, q, phys).Some? ==>
              && ServedFrom(s, i, q, phys)
              && ScanAddress(s, q, phys) == Some(AlignUp(s[i].base, q.align))
              && ScanRegions(s, q, phys) == s[i := Carved(s[i], q)]
    ensures ScanAddress(s, q, phys).None? ==>
              ScanRegions(s, q, phys) == s && forall r :: r in s ==> !Fits(r, q, phys)
  {
    i := 0;
    if s != [] && !Fits(s[0], q, phys) {
      var k := ScanIsFirstFit(s[1..], q, phys);
      i := k + 1;
      assert s == [s[0]] + s[1..];
    }
  }

  lemma {:induction false} ScanFindsNothing(s: seq<Region>, q: Request, phys: nat -> nat)
    requires q.Sound() && forall r :: r in s ==> r.size < q.size
    ensures ScanAddress(s, q, phys) == None && ScanRegions(s, q, phys) == s
  {
    if s == [] {
    } else {
      assert s[0] in s;
      ScanFindsNothing(s[1..], q, phys);
    }
  }

  /** What every block handed out satisfies. */
  lemma FitMeansUsable(r: Region, q: Request, phys: nat -> nat)
    requires q.Sound() && Fits(r, q, phys)
    ensures var at := AlignUp(r.base, q.align);
      && at % q.align == 0
      && r.base <= at && at + q.size <= r.End()
      && (q.maxAddress.Some? ==> phys(at) + q.size <= q.maxAddress.value)
      && (q.boundary.Some? ==>
            forall x :: at <= x < at + q.size ==> x / q.boundary.value == at / q.boundary.value)
      && Carved(r, q) == Region(at + q.size, r.End() - (at + q.size))
  {
    var at := AlignUp(r.base, q.align);
    if q.boundary.Some? {
      var b := q.boundary.value;
      forall x | at <= x < at + q.size ensures x / b == at / b {
        DivMonotone(at, x, b);
        DivMonotone(x, at + q.size - 1, b);
      }
    }
  }

  // ---------- The pruned search ----------

  function AllocRec(t: Tree, q: Request, phys: nat -> nat): (Tree, Option<nat>)
    requires q.Sound()
  {
    if t.Nil? then (Nil, None)
    else
      var (l, leftOut) := if t.left.Node? && t.left.maxSize >= q.size then AllocRec(t.left, q, phys) else (t.left, None);
      var n := if t.left.Node? && t.left.maxSize >= q.size then UpdateMax(t.(left := l)) else t;
      if leftOut.Some? then (n, leftOut)
      else if Fits(Region(t.base, t.size), q, phys) then
        var c := Carved(Region(t.base, t.size), q);
        (UpdateMax(n.(base := c.base, size := c.size)), Some(AlignUp(t.base, q.align)))
      else if t.right.Node? && t.right.maxSize >= q.size then
        var (r, rightOut) := AllocRec(t.right, q, phys);
        (UpdateMax(n.(right := r)), rightOut)
      else
        (UpdateMax(n), None)
  }

  function Alloc(root: Tree, q: Request, phys: nat -> nat): (Tree, Option<nat>)
    requires q.Sound()
  {
    var (t, out) := AllocRec(root, q, phys);
    (Recolored(t, Black), out)
  }

  /** A subtree the search skips holds nothing that fits. */
  lemma PrunedHasNothing(t: Tree, q: Request, phys: nat -> nat)
    requires q.Sound() && MaxExact(t) && !(t.Node? && t.maxSize >= q.size)
    ensures ScanAddress(Inorder(t), q, phys) == None && ScanRegions(Inorder(t), q, phys) == Inorder(t)
  {
    MaxExactIsMaximum(t);
    ScanFindsNothing(Inorder(t), q, phys);
  }

  /** Pruning on the size index changes neither the address found nor the regions left behind. */
  lemma {:induction false} AllocRefinesScan(t: Tree, q: Request, phys: nat -> nat)
    requires q.Sound() && MaxExact(t)
    ensures AllocRec(t, q, phys).1 == ScanAddress(Inorder(t), q, phys)
    ensures Inorder(AllocRec(t, q, phys).0) == ScanRegions(Inorder(t), q, phys)
  {
    if t.Nil? {
    } else {
      ScanSplit(Inorder(t.left), Region(t.base, t.size), Inorder(t.right), q, phys);
      if t.left.Node? && t.left.maxSize >= q.size {
        AllocRefinesScan(t.left, q, phys);
        if AllocRec(t.left, q, phys).1.None? { AllocNoneKeepsTree(t.left, q, phys); }
      } else {
        PrunedHasNothing(t.left, q, phys);
      }
      if t.right.Node? && t.right.maxSize >= q.size {
        AllocRefinesScan(t.right, q, phys);
      } else {
        PrunedHasNothing(t.right, q, phys);
      }
    }
  }

  /** A search that finds nothing leaves the tree as it was. */
  lemma {:induction false} AllocNoneKeepsTree(t: Tree, q: Request, phys: nat -> nat)
    requires q.Sound() && MaxExact(t) && AllocRec(t, q, phys).1.None?
    ensures AllocRec(t, q, phys).0 == t
  {
    if t.Nil? {
    } else {
      if t.left.Node? && t.left.maxSize >= q.size { AllocNoneKeepsTree(t.left, q, phys); }
      if t.right.Node? && t.right.maxSize >= q.size { AllocNoneKeepsTree(t.right, q, phys); }
    }
  }

  lemma UpdateRestoresIndex(n: Tree)
    requires n.Node? && MaxExact(n.left) && MaxExact(n.right)
    ensures MaxExact(UpdateMax(n))
  {
  }

  lemma {:induction false} AllocKeepsIndex(t: Tree, q: Request, phys: nat -> nat)
    requires q.Sound() && MaxExact(t)
    ensures MaxExact(AllocRec(t, q, phys).0)
  {
    if t.Nil? {
    } else {
      AllocKeepsIndex(t.left, q, phys);
      AllocKeepsIndex(t.right, q, phys);
      var l := if t.left.Node? && t.left.maxSize >= q.size then AllocRec(t.left, q, phys).0 else t.left;
      var n := if t.left.Node? && t.left.maxSize >= q.size then UpdateMax(t.(left := l)) else t;
      UpdateRestoresIndex(t.(left := l));
      UpdateRestoresIndex(n);
      UpdateRestoresIndex(n.(right := AllocRec(t.right, q, phys).0));
      if Fits(Region(t.base, t.size), q, phys) {
        var c := Carved(Region(t.base, t.size), q);
        UpdateRestoresIndex(n.(base := c.base, size := c.size));
      }
    }
  }

  /** Equal up to regions and index: the same nodes in the same places with the same colours. */
  predicate SameShape(t: Tree, u: Tree) {
    match (t, u)
    case (Nil, Nil) => true
    case (Node(_, _, c, _, l, r), Node(_, _, d, _, m, s)) => c == d && SameShape(l, m) && SameShape(r, s)
    case _ => false
  }

  lemma {:induction false} SameShapeReflexive(t: Tree)
    ensures SameShape(t, t)
  {
    if t.Nil? {
    } else {
      SameShapeReflexive(t.left);
      SameShapeReflexive(t.right);
    }
  }

  /** Allocation moves no node and recolours none below the root. */
  lemma {:induction false} AllocKeepsShape(t: Tree, q: Request, phys: nat -> nat)
    requires q.Sound()
    ensures SameShape(t, AllocRec(t, q, phys).0)
  {
    if t.Nil? {
    } else {
      AllocKeepsShape(t.left, q, phys);
      AllocKeepsShape(t.right, q, phys);
      SameShapeReflexive(t.left);
      SameShapeReflexive(t.right);
    }
  }

  lemma {:induction false} SameShapeIsAsGood(t: Tree, u: Tree)
    requires SameShape(t, u)
    ensures IsRed(u) == IsRed(t) && Count(u) == Count(t) && BlackHeight(u) == BlackHeight(t)
    ensures (Llrb(t) ==> Llrb(u)) && (LlrbUpToRoot(t) ==> LlrbUpToRoot(u))
  {
    if t.Nil? {
    } else {
      SameShapeIsAsGood(t.left, u.left);
      SameShapeIsAsGood(t.right, u.right);
    }
  }

  lemma FitIgnoresHowTheLimitIsGiven(r: Region, q: Request, phys: nat -> nat)
    requires q.Sound()
    ensures Fits(r, q.(maxAddress := Some(q.Limit())), phys) == Fits(r, q, phys)
  {
  }

  /** The recursion hands the limit down as a number; that makes no difference. */
  lemma {:induction false} LimitMayBeExplicit(t: Tree, q: Request, phys: nat -> nat)
    requires q.Sound()
    ensures AllocRec(t, q.(maxAddress := Some(q.Limit())), phys) == AllocRec(t, q, phys)
  {
    if t.Nil? {
    } else {
      LimitMayBeExplicit(t.left, q, phys);
      LimitMayBeExplicit(t.right, q, phys);
      FitIgnoresHowTheLimitIsGiven(Region(t.base, t.size), q, phys);
    }
  }

  // ---------- Machine arithmetic ----------

  /** A power of two that a `usize` can hold. */
  ghost predicate PowerOfTwo(n: nat) {
    exists k: nat :: k < 64 && n == Pow2(k)
  }

  lemma AddressSpaceIsPow2()
    ensures Pow2(64) == ADDRESS_SPACE
  {
    assert Pow2(4) == 16;
    Pow2Adds(4, 4);
    Pow2Adds(8, 8);
    Pow2Adds(16, 16);
    Pow2Adds(32, 32);
  }

  /** No sum that `alloc` forms for a region in `s` leaves the 64-bit range. */
  ghost predicate Representable(s: seq<Region>, q: Request, phys: nat -> nat)
    requires q.align > 0
  {
    && q.size + q.align <= ADDRESS_SPACE
    && forall r :: r in s ==>
         && r.End() + q.align <= ADDRESS_SPACE
         && var at := AlignUp(r.base, q.align);
            at + q.size <= r.End() ==> phys(at) + q.size < ADDRESS_SPACE
  }

  lemma PowerOfTwoBounds(a: nat)
    requires PowerOfTwo(a)
    ensures 0 < a < ADDRESS_SPACE && a - 1 < Pow2(64)
  {
    var k: nat :| k < 64 && a == Pow2(k);
    Pow2Grows(k, 63);
    AddressSpaceIsPow2();
  }

  /** `x & !(a - 1)` is the multiple of `a` at or below `x`. */
  lemma MaskIsRoundDown(x: nat, a: nat)
    requires PowerOfTwo(a) && x < ADDRESS_SPACE
    ensures 0 < a && a - 1 < Pow2(64)
    ensures RoundDown(x, a) == x / a * a
  {
    var k: nat :| k < 64 && a == Pow2(k);
    AddressSpaceIsPow2();
    MaskRoundsDown(x, k, 64);
  }

  /** Rounding down to a multiple of a power of two, the way the source does it. */
  function RoundDown(x: nat, a: nat): nat
    requires 0 < a && a - 1 < Pow2(64)
  {
    And(x, Not(a - 1, 64))
  }

  lemma SameMultiples(x: nat, y: nat, b: nat, p: nat, q: nat)
    requires b > 0 && p == x / b * b && q == y / b * b
    ensures p == q <==> x / b == y / b
  {
    SameMultiple(x / b, y / b, b);
  }

  /** Equal masked addresses are addresses in one window. */
  lemma MaskedWindow(at: nat, size: nat, b: nat)
    requires PowerOfTwo(b) && size > 0 && at + size <= ADDRESS_SPACE
    ensures 0 < b && b - 1 < Pow2(64)
    ensures RoundDown(at, b) == RoundDown(at + size - 1, b) <==> OneWindow(at, size, b)
  {
    PowerOfTwoBounds(b);
    MaskIsRoundDown(at, b);
    MaskIsRoundDown(at + size - 1, b);
    SameMultiples(at, at + size - 1, b, RoundDown(at, b), RoundDown(at + size - 1, b));
  }
}
