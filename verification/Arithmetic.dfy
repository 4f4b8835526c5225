/** The few facts about powers of two, division and remainder that the other modules share. */
module Arithmetic {

  function Max(a: nat, b: nat): nat { if a < b then b else a }

  function Min(a: nat, b: nat): nat { if a < b then a else b }

  function Pow2(n: nat): (p: nat)
    ensures p >= 1
  {
    if n == 0 then 1 else 2 * Pow2(n - 1)
  }

  lemma {:induction false} Pow2Adds(a: nat, b: nat)
    ensures Pow2(a + b) == Pow2(a) * Pow2(b)
  {
    if a == 0 {
    } else {
      Pow2Adds(a - 1, b);
    }
  }

  lemma {:induction false} Pow2Grows(a: nat, b: nat)
    requires a <= b
    ensures Pow2(a) <= Pow2(b)
    decreases b
  {
    if a == b {
    } else {
      Pow2Grows(a, b - 1);
    }
  }

  lemma ProductGrows(a: nat, b: nat, c: nat)
    requires a <= b
    ensures a * c <= b * c
  {
  }

  lemma SquareGrows(a: nat, b: nat)
    requires a <= b
    ensures a * a <= b * b
  {
    ProductGrows(a, b, a);
    ProductGrows(a, b, b);
  }

  /** A non-zero multiple of `a` is at least `a` away from zero. */
  lemma NonZeroMultiple(d: int, a: nat)
    requires d != 0
    ensures d * a >= a || d * a + a <= 0
  {
    if d > 0 {
      ProductGrows(1, d, a);
    } else {
      ProductGrows(1, -d, a);
    }
  }

  /** Quotient and remainder are the only numbers that fit. */
  lemma DivModUnique(x: nat, a: nat, q: nat, r: nat)
    requires a > 0 && x == q * a + r && r < a
    ensures x / a == q && x % a == r
  {
    var d := q - x / a;
    assert x == x / a * a + x % a;
    assert d * a == x % a - r;
    if d != 0 { NonZeroMultiple(d, a); }
  }

  lemma DivMonotone(x: nat, y: nat, d: nat)
    requires d > 0 && x <= y
    ensures x / d <= y / d
  {
    var p, q := x / d, y / d;
    assert x == p * d + x % d && y == q * d + y % d;
    if q < p { ProductGrows(q + 1, p, d); }
  }

  lemma SameMultiple(p: nat, q: nat, a: nat)
    requires a > 0
    ensures p * a == q * a <==> p == q
  {
    if p != q {
      NonZeroMultiple(p - q, a);
      assert (p - q) * a == p * a - q * a;
    }
  }
}
