/**
 * When `alloc` refuses although free memory holds a usable block. It tries one position in each region,
 * the first aligned one; a boundary can rule that one out and leave a later one usable.
 */
module Refusal {
  import opened Wrappers
  import opened Arithmetic
  import opened Regions
  import opened RegionTree
  import opened SizeIndex
  import opened FirstFit
  import opened RegionAllocator

  /** An aligned block at `at` in the region would serve the request. */
  ghost predicate UsableAt(r: Region, at: nat, q: Request, phys: nat -> nat)
    requires q.Sound()
  {
    at % q.align == 0 && ServesAt(r, at, q, phys)
  }

  ghost predicate Usable(r: Region, q: Request, phys: nat -> nat)
    requires q.Sound()
  {
    exists at: nat :: UsableAt(r, at, q, phys)
  }

  ghost predicate Monotone(phys: nat -> nat) {
    forall x: nat, y: nat :: x <= y ==> phys(x) <= phys(y)
  }

  /** The requests the source's interface admits: alignment and boundary are powers of two. */
  ghost predicate Regular(q: Request) {
    q.Sound() && PowerOfTwo(q.align) && (q.boundary.Some? ==> PowerOfTwo(q.boundary.value))
  }

  /** An end that the limit allows, or the 64 bits of an address where there is none. */
  predicate Below(end: nat, maxAddress: Option<nat>) {
    match maxAddress
    case Some(max) => end <= max
    case None => end < 0x1_0000_0000_0000_0000
  }

  /** Requests for which looking at the first aligned position of a region is enough. */
  predicate FirstPositionDecides(q: Request, phys: nat -> nat) {
    || q.boundary.None?
    || q.size <= q.align
    || q.boundary.value <= q.align
    || q.boundary.value < q.size
    || !Below(phys(q.boundary.value) + q.size, q.maxAddress)
  }

  // ---------- Multiples and windows ----------

  /** The smaller of two powers of two divides the larger. */
  lemma PowersDivide(a: nat, b: nat) returns (m: nat)
    requires PowerOfTwo(a) && PowerOfTwo(b) && a <= b
    ensures m > 0 && b == a * m
  {
    var i: nat :| i < 64 && a == Pow2(i);
    var j: nat :| j < 64 && b == Pow2(j);
    if j < i { Pow2Grows(j + 1, i); }
    m := Pow2(j - i);
    Pow2Adds(i, j - i);
  }

  lemma MultipleHasNoRest(a: nat, m: nat)
    requires a > 0
    ensures (a * m) % a == 0
  {
    DivModUnique(a * m, a, m, 0);
  }

  lemma MultiplesAreApart(p: nat, r: nat, a: nat)
    requires r * a < p * a + a
    ensures r * a <= p * a
  {
    if p < r {
      ProductGrows(p + 1, r, a);
    } else {
      ProductGrows(r, p, a);
    }
  }

  lemma AlignUpIsFirst(x: nat, align: nat, at: nat)
    requires align > 0 && x <= at && at % align == 0
    ensures AlignUp(x, align) <= at
  {
    var y := AlignUp(x, align);
    assert at == at / align * align && y == y / align * align;
    MultiplesAreApart(at / align, y / align, align);
  }

  /** From a window's start, exactly the sizes up to the window's fit. */
  lemma WindowFromItsStart(at: nat, size: nat, b: nat)
    requires size > 0 && b > 0 && at % b == 0
    ensures OneWindow(at, size, b) <==> size <= b
  {
    var w := at / b;
    assert at == w * b;
    if size <= b {
      DivModUnique(at + (size - 1), b, w, size - 1);
    } else {
      DivModUnique(at + b, b, w + 1, 0);
      DivMonotone(at + b, at + size - 1, b);
    }
  }

  lemma Distribute(w: nat, m: nat, r: nat, align: nat)
    ensures (w * m + r) * align == w * (align * m) + r * align
  {
    assert (w * m + r) * align == (w * m) * align + r * align;
    assert (w * m) * align == w * (align * m);
  }

  /** The last aligned place in a window ends where the window does. */
  lemma PlaceInWindow(r: nat, size: nat, align: nat, m: nat)
    requires 0 < size <= align && r < m
    ensures r * align + size <= align * m
  {
    ProductGrows(r + 1, m, align);
    assert (r + 1) * align == r * align + align;
  }

  /** An aligned block no larger than its alignment never leaves a window of a multiple of the alignment. */
  lemma SmallBlocksStayInside(at: nat, size: nat, align: nat, m: nat)
    requires 0 < size <= align && m > 0 && at % align == 0
    ensures align * m > 0 && OneWindow(at, size, align * m)
  {
    var k := at / align;
    var w, r := k / m, k % m;
    assert k == w * m + r && at == k * align;
    var b, place := align * m, r * align;
    Distribute(w, m, r, align);
    PlaceInWindow(r, size, align, m);
    DivModUnique(at, b, w, place);
    DivModUnique(at + (size - 1), b, w, place + (size - 1));
  }

  lemma TooLargeForAnyWindow(at: nat, size: nat, b: nat)
    requires 0 < b < size
    ensures !OneWindow(at, size, b)
  {
    var w := at / b;
    assert at == w * b + at % b;
    DivModUnique(at + b, b, w + 1, at % b);
    DivMonotone(at + b, at + size - 1, b);
  }

  lemma FirstWindow(at: nat, size: nat, b: nat)
    requires size > 0 && at < b
    ensures OneWindow(at, size, b) <==> at + size <= b
  {
    DivModUnique(at, b, 0, at);
    if at + size <= b {
      DivModUnique(at + (size - 1), b, 0, at + (size - 1));
    } else {
      DivModUnique(b, b, 1, 0);
      DivMonotone(b, at + size - 1, b);
    }
  }

  // ---------- Where the first position decides ----------

  /** If a later position is in one window, the first one is too. */
  lemma FirstPositionIsInOneWindow(first: nat, at: nat, q: Request, phys: nat -> nat)
    requires Regular(q) && Monotone(phys) && q.boundary.Some? && FirstPositionDecides(q, phys)
    requires first <= at && first % q.align == 0 && at % q.align == 0
    requires Below(phys(at) + q.size, q.maxAddress) && OneWindow(at, q.size, q.boundary.value)
    ensures OneWindow(first, q.size, q.boundary.value)
  {
    var b := q.boundary.value;
    if b < q.size {
      TooLargeForAnyWindow(at, q.size, b);
    } else if b <= q.align {
      var m := PowersDivide(b, q.align);
      MultipleOfMultiple(first, q.align, b, m);
      MultipleOfMultiple(at, q.align, b, m);
      WindowFromItsStart(first, q.size, b);
    } else if q.size <= q.align {
      var m := PowersDivide(q.align, b);
      SmallBlocksStayInside(first, q.size, q.align, m);
    } else {
      assert phys(at) < phys(b);
      assert at < b;
      FirstWindow(at, q.size, b);
      FirstWindow(first, q.size, b);
    }
  }

  lemma MultipleOfMultiple(x: nat, a: nat, b: nat, m: nat)
    requires b > 0 && a == b * m && a > 0 && x % a == 0
    ensures x % b == 0
  {
    var k := x / a;
    assert x == k * a;
    assert k * (b * m) == b * (m * k);
    MultipleHasNoRest(b, m * k);
  }

  /** A region that holds a usable block is served. */
  lemma UsableFits(r: Region, q: Request, phys: nat -> nat)
    requires Regular(q) && Monotone(phys) && FirstPositionDecides(q, phys) && Usable(r, q, phys)
    ensures Fits(r, q, phys)
  {
    var at: nat :| UsableAt(r, at, q, phys);
    var first := AlignUp(r.base, q.align);
    AlignUpIsFirst(r.base, q.align, at);
    assert phys(first) <= phys(at);
    if q.boundary.Some? {
      WindowOfBytes(at, q.size, q.boundary.value);
      FirstPositionIsInOneWindow(first, at, q, phys);
      WindowOfBytes(first, q.size, q.boundary.value);
    }
    FitsExactlyWhen(r, first, q, phys);
  }

  lemma FitsIsUsable(r: Region, q: Request, phys: nat -> nat)
    requires q.Sound() && Fits(r, q, phys)
    ensures Usable(r, q, phys)
  {
    FitsExactlyWhen(r, AlignUp(r.base, q.align), q, phys);
    assert UsableAt(r, AlignUp(r.base, q.align), q, phys);
  }

  // ---------- Where it does not ----------

  /** The region that begins one alignment before the boundary: its first position crosses, the next does not. */
  function Straddling(q: Request): Region
    requires q.boundary.Some? && q.align <= q.boundary.value
  {
    Region(q.boundary.value - q.align, q.align + q.size)
  }

  lemma StraddlingIsRefused(q: Request, phys: nat -> nat)
    requires Regular(q) && !FirstPositionDecides(q, phys)
    ensures Usable(Straddling(q), q, phys) && !Fits(Straddling(q), q, phys)
  {
    var b, r := q.boundary.value, Straddling(q);
    var m := PowersDivide(q.align, b);
    MultipleHasNoRest(q.align, m);
    assert r.base == q.align * (m - 1);
    MultipleHasNoRest(q.align, m - 1);
    AlignUpIsFirst(r.base, q.align, r.base);
    FirstWindow(r.base, q.size, b);
    DivModUnique(b, b, 1, 0);
    WindowFromItsStart(b, q.size, b);
    WindowOfBytes(b, q.size, b);
    assert UsableAt(r, b, q, phys);
  }

  // ---------- The exact condition ----------

  /** Every region with a usable block is served if and only if the first position decides. */
  lemma FirstPositionDecidesExactlyWhen(q: Request, phys: nat -> nat)
    requires Regular(q) && Monotone(phys)
    ensures FirstPositionDecides(q, phys) <==> forall r :: Usable(r, q, phys) ==> Fits(r, q, phys)
  {
    if FirstPositionDecides(q, phys) {
      forall r | Usable(r, q, phys) ensures Fits(r, q, phys) { UsableFits(r, q, phys); }
    } else {
      StraddlingIsRefused(q, phys);
    }
  }

  /** For such requests `alloc` refuses exactly when no region holds a usable block. */
  lemma RefusalMeansNothingIsUsable(root: Tree, q: Request, phys: nat -> nat)
    requires Regular(q) && Monotone(phys) && FirstPositionDecides(q, phys)
    requires MaxExact(root) && LlrbUpToRoot(root)
    ensures Alloc(root, q, phys).1.None? <==> forall r :: r in Inorder(root) ==> !Usable(r, q, phys)
  {
    AllocRefinesRegions(root, q, phys);
    var i := ScanIsFirstFit(Inorder(root), q, phys);
    if Alloc(root, q, phys).1.Some? {
      FitsIsUsable(Inorder(root)[i], q, phys);
      assert Inorder(root)[i] in Inorder(root);
    } else {
      forall r | r in Inorder(root) ensures !Usable(r, q, phys) {
        if Usable(r, q, phys) { UsableFits(r, q, phys); }
      }
    }
  }

  /** Four bytes within a window of four: [3,13) is refused, although [4,8) would do. */
  lemma UsableBlockIsRefused(phys: nat -> nat)
    requires phys(4) + 4 < ADDRESS_SPACE
    ensures var root, q := Node(3, 10, Black, 10, Nil, Nil), Request(4, 1, None, Some(4));
      && MaxExact(root) && LlrbUpToRoot(root) && Inorder(root) == [Region(3, 10)]
      && UsableAt(Region(3, 10), 4, q, phys) && Alloc(root, q, phys).1 == None
  {
    var root, q := Node(3, 10, Black, 10, Nil, Nil), Request(4, 1, None, Some(4));
    AlignUpIsFirst(3, 1, 3);
    assert !Fits(Region(3, 10), q, phys);
    WindowFromItsStart(4, 4, 4);
    WindowOfBytes(4, 4, 4);
    AllocRefinesRegions(root, q, phys);
    assert Inorder(root)[1..] == [];
  }
}
