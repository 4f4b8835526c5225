/** The accessors `bitstruct!` generates: byte loops that read and write any range of bits. */
module BitStruct {
  import opened Arithmetic
  import opened Words

  const BYTE: nat := 256

  ghost predicate Bytes(s: seq<nat>) {
    forall i :: 0 <= i < |s| ==> s[i] < BYTE
  }

  /** Bit `b` of the packed struct, counted from bit 0 of byte 0. */
  predicate StructBit(data: seq<nat>, b: nat)
    requires b / 8 < |data|
  {
    Bit(data[b / 8], b % 8)
  }

  /** The field at `start`, `width` bits wide, as a number: the reference definition of a getter. */
  function Field(data: seq<nat>, start: nat, width: nat): (v: nat)
    requires start + width <= 8 * |data|
    decreases width
  {
    if width == 0 then 0
    else (if StructBit(data, start) then 1 else 0) + 2 * Field(data, start + 1, width - 1)
  }

  lemma {:induction false} FieldBit(data: seq<nat>, start: nat, width: nat, i: nat)
    requires start + width <= 8 * |data|
    ensures Bit(Field(data, start, width), i) <==> i < width && StructBit(data, start + i)
    decreases width
  {
    if width == 0 {
      ZeroBit(i);
    } else {
      DoubleBit(if StructBit(data, start) then 1 else 0, Field(data, start + 1, width - 1), i);
      if i > 0 {
        FieldBit(data, start + 1, width - 1, i - 1);
        assert start + 1 + (i - 1) == start + i;
      }
    }
  }

  /** A number with exactly these bits is the field. */
  lemma FieldIs(data: seq<nat>, start: nat, width: nat, v: nat)
    requires start + width <= 8 * |data|
    requires forall i: nat :: Bit(v, i) <==> i < width && StructBit(data, start + i)
    ensures v == Field(data, start, width)
  {
    forall i: nat ensures Bit(v, i) == Bit(Field(data, start, width), i) { FieldBit(data, start, width, i); }
    SameBits(v, Field(data, start, width));
  }

  /** `now` is `was` with the bits `start` to `end` replaced by the low bits of `value`. */
  ghost predicate Written(was: seq<nat>, now: seq<nat>, start: nat, end: nat, value: nat) {
    && |now| == |was| && Bytes(now)
    && forall b: nat :: b < 8 * |was| ==>
         StructBit(now, b) == if start <= b <= end then Bit(value, b - start) else StructBit(was, b)
  }

  /** What is written is read back, cut to the width of the field. */
  lemma GetAfterSet(was: seq<nat>, now: seq<nat>, start: nat, end: nat, value: nat)
    requires Written(was, now, start, end, value) && start <= end < 8 * |was|
    ensures Field(now, start, end - start + 1) == Truncate(value, end - start + 1)
  {
    var w := end - start + 1;
    forall i: nat ensures Bit(Truncate(value, w), i) <==> i < w && StructBit(now, start + i) {
      TruncateBit(value, w, i);
    }
    FieldIs(now, start, w, Truncate(value, w));
  }

  /** A field that shares no bit with the one written keeps its value. */
  lemma SetKeepsOthers(was: seq<nat>, now: seq<nat>, start: nat, end: nat, value: nat, other: nat, width: nat)
    requires Written(was, now, start, end, value) && other + width <= 8 * |was|
    requires other + width <= start || end < other
    ensures Field(now, other, width) == Field(was, other, width)
  {
    forall i: nat ensures Bit(Field(was, other, width), i) <==> i < width && StructBit(now, other + i) {
      FieldBit(was, other, width, i);
    }
    FieldIs(now, other, width, Field(was, other, width));
  }

  // ---------- One byte ----------

  lemma ByteIsPow2()
    ensures Pow2(8) == BYTE
  {
    assert Pow2(4) == 16;
    Pow2Adds(4, 4);
  }

  /** `(byte & !(mask << shift)) | (chunk << shift)`, with a mask of `n` bits, on eight bits. */
  function SpliceByte(byte: nat, n: nat, shift: nat, chunk: nat): nat
    requires byte < BYTE && n + shift <= 8
  {
    Or(And(byte, Not(Shl(Ones(n), shift, 8), 8)), Shl(chunk, shift, 8))
  }

  lemma SplicedBit(byte: nat, n: nat, shift: nat, value: nat, from: nat, i: nat)
    requires byte < BYTE && n + shift <= 8
    ensures Bit(SpliceByte(byte, n, shift, And(Shr(value, from), Ones(n))), i) <==>
              i < 8 && if shift <= i < shift + n then Bit(value, from + i - shift) else Bit(byte, i)
  {
    ByteIsPow2();
    var mask := Shl(Ones(n), shift, 8);
    var chunk := And(Shr(value, from), Ones(n));
    OrBit(And(byte, Not(mask, 8)), Shl(chunk, shift, 8), i);
    AndBit(byte, Not(mask, 8), i);
    NotBit(mask, 8, i);
    ShlBit(Ones(n), shift, 8, i);
    ShlBit(chunk, shift, 8, i);
    if 8 <= i { HighBit(byte, 8, i); }
    if shift <= i {
      OnesBit(n, i - shift);
      AndBit(Shr(value, from), Ones(n), i - shift);
      ShrBit(value, from, i - shift);
    }
  }

  /** A chunk of at most eight bits is not changed by the cast to `u8`. */
  lemma ChunkFits(x: nat, n: nat)
    requires n <= 8
    ensures And(x, Ones(n)) < BYTE && Ones(n) < BYTE
  {
    ByteIsPow2();
    Pow2Grows(n, 8);
    MaskTruncates(x, n);
  }

  /** `byte` with `n` bits of `value`, those from `from` on, put in at `shift`. */
  method Splice(byte: nat, n: nat, shift: nat, value: nat, from: nat) returns (r: nat)
    requires byte < BYTE && n + shift <= 8
    ensures r < BYTE
    ensures forall i: nat :: i < 8 ==>
      (Bit(r, i) <==> if shift <= i < shift + n then Bit(value, from + i - shift) else Bit(byte, i))
  {
    ChunkFits(Shr(value, from), n);
    var chunk := And(Shr(value, from), Ones(n));
    r := SpliceByte(byte, n, shift, chunk);
    ByteIsPow2();
    forall i: nat
      ensures Bit(r, i) <==> i < 8 && if shift <= i < shift + n then Bit(value, from + i - shift) else Bit(byte, i)
    {
      SplicedBit(byte, n, shift, value, from, i);
    }
    FitsWhenHighBitsClear(r, 8);
  }

  /** Byte `k` of the struct once the range has been written, as far as this byte is concerned. */
  ghost predicate ByteWritten(was: nat, now: nat, k: nat, start: nat, end: nat, value: nat) {
    && now < BYTE
    && forall i: nat :: i < 8 ==>
         (Bit(now, i) <==> if start <= 8 * k + i <= end then Bit(value, 8 * k + i - start) else Bit(was, i))
  }

  lemma AllBytesWritten(was: seq<nat>, now: seq<nat>, start: nat, end: nat, value: nat)
    requires |now| == |was| && Bytes(was) && start <= end
    requires forall k :: 0 <= k < |was| ==>
      if start / 8 <= k <= end / 8 then ByteWritten(was[k], now[k], k, start, end, value) else now[k] == was[k]
    ensures Written(was, now, start, end, value)
  {
    forall b: nat | b < 8 * |was|
      ensures StructBit(now, b) == if start <= b <= end then Bit(value, b - start) else StructBit(was, b)
    {
      var k, i := b / 8, b % 8;
      assert b == 8 * k + i;
      if start / 8 <= k <= end / 8 {
        assert ByteWritten(was[k], now[k], k, start, end, value);
      }
    }
  }

  // ---------- The generated accessors ----------

  class Packed {
    const data: array<nat>

    ghost predicate Valid()
      reads this, data
    {
      Bytes(data[..])
    }

    constructor (totalBytes: nat)
      ensures Valid() && fresh(data) && data.Length == totalBytes
      ensures forall i :: 0 <= i < totalBytes ==> data[i] == 0
    {
      data := new nat[totalBytes](_ => 0);
    }

    /** The getter of a field inside one byte. */
    method GetInByte(start: nat, end: nat, typeWidth: nat) returns (v: nat)
      requires Valid() && start <= end < 8 * data.Length && start / 8 == end / 8
      ensures v == Truncate(Field(data[..], start, end - start + 1), typeWidth)
    {
      var width := end - start + 1;
      var byte := data[start / 8];
      var shifted := Shr(byte, start % 8);
      var masked := And(shifted, Ones(width));
      forall i: nat ensures Bit(masked, i) <==> i < width && StructBit(data[..], start + i) {
        AndBit(shifted, Ones(width), i);
        OnesBit(width, i);
        ShrBit(byte, start % 8, i);
        if i < width { assert (start + i) / 8 == start / 8 && (start + i) % 8 == start % 8 + i; }
      }
      FieldIs(data[..], start, width, masked);
      v := Truncate(masked, typeWidth);
    }

    /** The setter of a field inside one byte. */
    method SetInByte(start: nat, end: nat, value: nat)
      requires Valid() && start <= end < 8 * data.Length && start / 8 == end / 8
      modifies data
      ensures Written(old(data[..]), data[..], start, end, value)
    {
      var width, k, shift := end - start + 1, start / 8, start % 8;
      data[k] := Splice(data[k], width, shift, value, 0);
      assert ByteWritten(old(data[k]), data[k], k, start, end, value);
      AllBytesWritten(old(data[..]), data[..], start, end, value);
    }

    /** The getter of a field that crosses bytes: a `u64` result collects byte after byte. */
    method GetAcross(start: nat, end: nat, typeWidth: nat) returns (v: nat)
      requires Valid() && start <= end < 8 * data.Length && end - start + 1 <= 63
      ensures v == Truncate(Field(data[..], start, end - start + 1), typeWidth)
    {
      var width, result := end - start + 1, 0;
      ghost var s := data[..];
      forall i: nat ensures !Bit(result, i) { ZeroBit(i); }
      for k := start / 8 to end / 8 + 1
        invariant Collected(s, start, 8 * k, result)
      {
        var position := if k == start / 8 then 0 else (k - start / 8) * 8 - start % 8;
        var bits := if k == start / 8 then Shr(data[k], start % 8) else data[k];
        assert position < 64;
        CollectOne(s, start, k, result);
        result := Or(result, Shl(bits, position, 64));
      }
      forall i: nat ensures Bit(And(result, Ones(width)), i) <==> i < width && StructBit(s, start + i) {
        AndBit(result, Ones(width), i);
        OnesBit(width, i);
      }
      FieldIs(s, start, width, And(result, Ones(width)));
      v := Truncate(And(result, Ones(width)), typeWidth);
    }

    /** The setter of a field that crosses bytes: first byte from the offset on, whole bytes, last byte up to the end. */
    method SetAcross(start: nat, end: nat, value: nat)
      requires Valid() && start <= end < 8 * data.Length && start / 8 < end / 8 && end - start + 1 <= 63
      modifies data
      ensures Written(old(data[..]), data[..], start, end, value)
    {
      var first, last, offset, width := start / 8, end / 8, start % 8, end - start + 1;
      var masked := And(value, Ones(width));
      forall i: nat ensures Bit(masked, i) <==> Bit(value, i) && i < width { MaskedBit(value, width, i); }
      for k := first to last + 1
        invariant forall j :: 0 <= j < data.Length && (j < first || k <= j) ==> data[j] == old(data[j])
        invariant forall j :: first <= j < k ==> ByteWritten(old(data[j]), data[j], j, start, end, value)
      {
        var from := if k == first then 0 else (k - first) * 8 - offset;
        var n := if k == first then 8 - offset else if k == last then end % 8 + 1 else 8;
        var shift := if k == first then offset else 0;
        assert from < 64;
        var was := data[k];
        data[k] := Splice(was, n, shift, masked, from);
        ChunkIsByteWritten(was, data[k], k, start, end, value, masked);
      }
      AllBytesWritten(old(data[..]), data[..], start, end, value);
    }

    /** The generated getter: one of two forms, chosen by whether the field crosses a byte. */
    method Get(start: nat, end: nat, typeWidth: nat) returns (v: nat)
      requires Valid() && start <= end < 8 * data.Length && end - start + 1 <= 63
      ensures v == Truncate(Field(data[..], start, end - start + 1), typeWidth)
    {
      if start / 8 == end / 8 {
        v := GetInByte(start, end, typeWidth);
      } else {
        v := GetAcross(start, end, typeWidth);
      }
    }

    method Set(start: nat, end: nat, value: nat)
      requires Valid() && start <= end < 8 * data.Length && end - start + 1 <= 63
      modifies data
      ensures Valid() && Written(old(data[..]), data[..], start, end, value)
    {
      if start / 8 == end / 8 {
        SetInByte(start, end, value);
      } else {
        SetAcross(start, end, value);
      }
    }
  }

  /** The result holds the bits of the struct from `start` up to `limit`, as far as they fit a `u64`. */
  ghost predicate Collected(s: seq<nat>, start: nat, limit: nat, result: nat)
    requires limit <= 8 * |s|
  {
    forall i: nat :: Bit(result, i) <==> i < 64 && start + i < limit && StructBit(s, start + i)
  }

  lemma CollectOne(s: seq<nat>, start: nat, k: nat, result: nat)
    requires Bytes(s) && start / 8 <= k < |s| && Collected(s, start, 8 * k, result)
    requires start / 8 < k ==> (k - start / 8) * 8 - start % 8 < 64
    ensures var position := if k == start / 8 then 0 else (k - start / 8) * 8 - start % 8;
      var bits := if k == start / 8 then Shr(s[k], start % 8) else s[k];
      Collected(s, start, 8 * k + 8, Or(result, Shl(bits, position, 64)))
  {
    var position: nat := if k == start / 8 then 0 else (k - start / 8) * 8 - start % 8;
    var bits := if k == start / 8 then Shr(s[k], start % 8) else s[k];
    ByteIsPow2();
    var r := Or(result, Shl(bits, position, 64));
    forall i: nat ensures Bit(r, i) <==> i < 64 && start + i < 8 * k + 8 && StructBit(s, start + i) {
      OrBit(result, Shl(bits, position, 64), i);
      ShlBit(bits, position, 64, i);
      if position <= i { CollectedBit(s, start, k, i); }
    }
  }

  /** Which bit of the struct a byte contributes at place `i` of the result. */
  lemma CollectedBit(s: seq<nat>, start: nat, k: nat, i: nat)
    requires Bytes(s) && start / 8 <= k < |s|
    requires k == start / 8 || (k - start / 8) * 8 - start % 8 <= i
    ensures var position: nat := if k == start / 8 then 0 else (k - start / 8) * 8 - start % 8;
      var bits := if k == start / 8 then Shr(s[k], start % 8) else s[k];
      Bit(bits, i - position) <==> 8 * k <= start + i < 8 * k + 8 && StructBit(s, start + i)
  {
    ByteIsPow2();
    var position: nat := if k == start / 8 then 0 else (k - start / 8) * 8 - start % 8;
    var place := start + i - 8 * k;
    if k == start / 8 {
      ShrBit(s[k], start % 8, i);
      assert place == i + start % 8;
    } else {
      assert place == i - position;
    }
    if place < 8 {
      assert (start + i) / 8 == k && (start + i) % 8 == place;
    } else {
      HighBit(s[k], 8, place);
    }
  }

  // ---------- The part of the field in byte `k`, as the setter's loop computes it ----------

  function ChunkFrom(start: nat, k: nat): nat
    requires start / 8 <= k
  {
    if k == start / 8 then 0 else (k - start / 8) * 8 - start % 8
  }

  function ChunkShift(start: nat, k: nat): nat {
    if k == start / 8 then start % 8 else 0
  }

  function ChunkBits(start: nat, end: nat, k: nat): nat {
    if k == start / 8 then 8 - start % 8 else if k == end / 8 then end % 8 + 1 else 8
  }

  /** The chunk lies where the field meets byte `k`, and its bits are the next ones of the value. */
  lemma ChunkIsInPlace(start: nat, end: nat, k: nat, i: nat)
    requires start / 8 < end / 8 && start / 8 <= k <= end / 8 && i < 8
    ensures ChunkShift(start, k) <= i < ChunkShift(start, k) + ChunkBits(start, end, k) <==> start <= 8 * k + i <= end
    ensures start <= 8 * k + i ==> ChunkFrom(start, k) + i - ChunkShift(start, k) == 8 * k + i - start
  {
    assert start == 8 * (start / 8) + start % 8 && end == 8 * (end / 8) + end % 8;
  }

  lemma MaskedBit(value: nat, width: nat, i: nat)
    ensures Bit(And(value, Ones(width)), i) <==> Bit(value, i) && i < width
  {
    AndBit(value, Ones(width), i);
    OnesBit(width, i);
  }

  /** A byte that took its chunk from the masked value holds the field's part. */
  lemma ChunkIsByteWritten(byte: nat, r: nat, k: nat, start: nat, end: nat, value: nat, masked: nat)
    requires r < BYTE && start / 8 < end / 8 && start / 8 <= k <= end / 8
    requires forall i: nat :: Bit(masked, i) <==> Bit(value, i) && i < end - start + 1
    requires forall i: nat :: i < 8 ==>
      (Bit(r, i) <==>
         if ChunkShift(start, k) <= i < ChunkShift(start, k) + ChunkBits(start, end, k)
         then Bit(masked, ChunkFrom(start, k) + i - ChunkShift(start, k))
         else Bit(byte, i))
    ensures ByteWritten(byte, r, k, start, end, value)
  {
    forall i: nat | i < 8
      ensures Bit(r, i) <==> if start <= 8 * k + i <= end then Bit(value, 8 * k + i - start) else Bit(byte, i)
    {
      ChunkIsInPlace(start, end, k, i);
    }
  }
}
