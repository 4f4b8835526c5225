/** Machine words as natural numbers, with the bit operators of the source and what they do to each bit. */
module Words {
  import opened Arithmetic

  predicate Bit(x: nat, i: nat) {
    if i == 0 then x % 2 == 1 else Bit(x / 2, i - 1)
  }

  function And(x: nat, y: nat): nat {
    if x == 0 || y == 0 then 0 else 2 * And(x / 2, y / 2) + (if x % 2 == 1 && y % 2 == 1 then 1 else 0)
  }

  function Or(x: nat, y: nat): nat {
    if x == 0 then y else 2 * Or(x / 2, y / 2) + (if x % 2 == 1 || y % 2 == 1 then 1 else 0)
  }

  /** `(1 << n) - 1` */
  function Ones(n: nat): nat { Pow2(n) - 1 }

  /** `!x` on a word of `width` bits. */
  function Not(x: nat, width: nat): nat
    requires x < Pow2(width)
  {
    Pow2(width) - 1 - x
  }

  /** `x` with `s` zero bits put below it. */
  function Scale(x: nat, s: nat): nat {
    if s == 0 then x else 2 * Scale(x, s - 1)
  }

  /** `x >> s` */
  function Shr(x: nat, s: nat): nat {
    if s == 0 then x else Shr(x / 2, s - 1)
  }

  /** `x as uN`: the low `width` bits. */
  function Truncate(x: nat, width: nat): (r: nat)
    ensures r < Pow2(width)
  {
    if width == 0 then 0 else x % 2 + 2 * Truncate(x / 2, width - 1)
  }

  /** `x << s` on a word of `width` bits: what leaves the word is dropped. */
  function Shl(x: nat, s: nat, width: nat): (r: nat)
    ensures r < Pow2(width)
  {
    Truncate(Scale(x, s), width)
  }

  // ---------- Bit by bit ----------

  lemma {:induction false} ZeroBit(i: nat)
    ensures !Bit(0, i)
  {
    if i == 0 {
    } else {
      ZeroBit(i - 1);
    }
  }

  lemma {:induction false} SameBits(x: nat, y: nat)
    requires forall i: nat :: Bit(x, i) == Bit(y, i)
    ensures x == y
    decreases x + y
  {
    if x == 0 && y == 0 { return; }
    forall i: nat ensures Bit(x / 2, i) == Bit(y / 2, i) {
      assert Bit(x, i + 1) == Bit(y, i + 1);
    }
    assert Bit(x, 0) == Bit(y, 0);
    SameBits(x / 2, y / 2);
  }

  lemma {:induction false} AndBit(x: nat, y: nat, i: nat)
    ensures Bit(And(x, y), i) <==> Bit(x, i) && Bit(y, i)
    decreases i
  {
    if x == 0 || y == 0 {
      ZeroBit(i);
    } else if i > 0 {
      AndBit(x / 2, y / 2, i - 1);
      assert And(x, y) / 2 == And(x / 2, y / 2);
    }
  }

  lemma {:induction false} OrBit(x: nat, y: nat, i: nat)
    ensures Bit(Or(x, y), i) <==> Bit(x, i) || Bit(y, i)
    decreases i
  {
    if x == 0 {
      ZeroBit(i);
    } else if i > 0 {
      OrBit(x / 2, y / 2, i - 1);
      assert Or(x, y) / 2 == Or(x / 2, y / 2);
    }
  }

  lemma {:induction false} NotBit(x: nat, width: nat, i: nat)
    requires x < Pow2(width)
    ensures Bit(Not(x, width), i) <==> i < width && !Bit(x, i)
    decreases i
  {
    if width == 0 {
      ZeroBit(i);
    } else {
      assert Not(x, width) / 2 == Not(x / 2, width - 1);
      if i > 0 { NotBit(x / 2, width - 1, i - 1); }
    }
  }

  lemma OnesBit(n: nat, i: nat)
    ensures Bit(Ones(n), i) <==> i < n
  {
    ZeroBit(i);
    NotBit(0, n, i);
    assert Ones(n) == Not(0, n);
  }

  lemma {:induction false} HighBit(x: nat, width: nat, i: nat)
    requires x < Pow2(width) && width <= i
    ensures !Bit(x, i)
    decreases i
  {
    if width == 0 {
      ZeroBit(i);
    } else {
      HighBit(x / 2, width - 1, i - 1);
    }
  }

  lemma {:induction false} FitsWhenHighBitsClear(x: nat, width: nat)
    requires forall i: nat :: width <= i ==> !Bit(x, i)
    ensures x < Pow2(width)
    decreases width
  {
    if width == 0 {
      forall i: nat ensures Bit(x, i) == Bit(0, i) { ZeroBit(i); }
      SameBits(x, 0);
    } else {
      forall i: nat | width - 1 <= i ensures !Bit(x / 2, i) { assert !Bit(x, i + 1); }
      FitsWhenHighBitsClear(x / 2, width - 1);
    }
  }

  lemma DoubleBit(low: nat, x: nat, i: nat)
    requires low < 2
    ensures Bit(low + 2 * x, i) <==> if i == 0 then low == 1 else Bit(x, i - 1)
  {
    assert (low + 2 * x) / 2 == x && (low + 2 * x) % 2 == low;
  }

  lemma {:induction false} ScaleBit(x: nat, s: nat, i: nat)
    ensures Bit(Scale(x, s), i) <==> s <= i && Bit(x, i - s)
    decreases s
  {
    if s == 0 {
    } else {
      DoubleBit(0, Scale(x, s - 1), i);
      if i > 0 { ScaleBit(x, s - 1, i - 1); }
    }
  }

  lemma {:induction false} TruncateBit(x: nat, width: nat, i: nat)
    ensures Bit(Truncate(x, width), i) <==> i < width && Bit(x, i)
    decreases width
  {
    if width == 0 {
      ZeroBit(i);
    } else {
      DoubleBit(x % 2, Truncate(x / 2, width - 1), i);
      if i > 0 { TruncateBit(x / 2, width - 1, i - 1); }
    }
  }

  lemma {:induction false} ShrBit(x: nat, s: nat, i: nat)
    ensures Bit(Shr(x, s), i) <==> Bit(x, i + s)
    decreases s
  {
    if s == 0 {
    } else {
      ShrBit(x / 2, s - 1, i);
    }
  }

  lemma ShlBit(x: nat, s: nat, width: nat, i: nat)
    ensures Bit(Shl(x, s, width), i) <==> i < width && s <= i && Bit(x, i - s)
  {
    TruncateBit(Scale(x, s), width, i);
    ScaleBit(x, s, i);
  }

  /** A number that fits is not changed by truncation. */
  lemma {:induction false} TruncateFitting(x: nat, width: nat)
    requires x < Pow2(width)
    ensures Truncate(x, width) == x
    decreases width
  {
    if width == 0 {
    } else {
      TruncateFitting(x / 2, width - 1);
    }
  }

  // ---------- As arithmetic ----------

  lemma {:induction false} ScaleIsProduct(x: nat, s: nat)
    ensures Scale(x, s) == x * Pow2(s)
  {
    if s == 0 {
    } else {
      ScaleIsProduct(x, s - 1);
    }
  }

  lemma HalfOfQuotient(x: nat, p: nat)
    requires p > 0
    ensures x / (2 * p) == x / 2 / p
  {
    var q, r := x / 2 / p, x / 2 % p;
    assert x / 2 == q * p + r;
    assert x == q * (2 * p) + (2 * r + x % 2) by { assert x == 2 * (x / 2) + x % 2; }
    DivModUnique(x, 2 * p, q, 2 * r + x % 2);
  }

  lemma {:induction false} ShrIsQuotient(x: nat, s: nat)
    ensures Shr(x, s) == x / Pow2(s)
    decreases s
  {
    if s == 0 {
    } else {
      HalfOfQuotient(x, Pow2(s - 1));
      ShrIsQuotient(x / 2, s - 1);
    }
  }

  // ---------- Masks ----------

  /** `x & !(a - 1)` rounds down to a multiple of the power of two `a`. */
  lemma MaskRoundsDown(x: nat, k: nat, width: nat)
    requires k <= width && x < Pow2(width)
    ensures Pow2(k) - 1 < Pow2(width)
    ensures And(x, Not(Pow2(k) - 1, width)) == x / Pow2(k) * Pow2(k)
  {
    Pow2Grows(k, width);
    var l, r := And(x, Not(Ones(k), width)), Scale(Shr(x, k), k);
    forall i: nat ensures Bit(l, i) == Bit(r, i) {
      AndBit(x, Not(Ones(k), width), i);
      NotBit(Ones(k), width, i);
      OnesBit(k, i);
      ScaleBit(Shr(x, k), k, i);
      if k <= i { ShrBit(x, k, i - k); }
      if width <= i { HighBit(x, width, i); }
    }
    SameBits(l, r);
    ScaleIsProduct(Shr(x, k), k);
    ShrIsQuotient(x, k);
  }

  /** `x & ((1 << n) - 1)` keeps the low bits. */
  lemma MaskTruncates(x: nat, n: nat)
    ensures And(x, Ones(n)) == Truncate(x, n)
  {
    forall i: nat ensures Bit(And(x, Ones(n)), i) == Bit(Truncate(x, n), i) {
      AndBit(x, Ones(n), i);
      OnesBit(n, i);
      TruncateBit(x, n, i);
    }
    SameBits(And(x, Ones(n)), Truncate(x, n));
  }
}
