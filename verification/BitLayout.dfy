/** Where `bitstruct!` places its fields, and the constructor that fills them all. */
module BitLayout {
  import opened Wrappers
  import opened Arithmetic
  import opened Words
  import opened BitStruct

  datatype Range = Range(start: nat, end: nat)

  /** A declared field: the width its type has, and the bit range if one is written out. */
  datatype Declaration = Declaration(typeWidth: nat, range: Option<Range>)

  datatype FieldInfo = FieldInfo(start: nat, end: nat, typeWidth: nat)

  /** A field without a range is placed at the running position; a range moves the position behind it. */
  function Place(d: Declaration, position: nat): (f: FieldInfo)
    requires d.typeWidth > 0
  {
    match d.range
    case Some(r) => FieldInfo(r.start, r.end, d.typeWidth)
    case None => FieldInfo(position, position + d.typeWidth - 1, d.typeWidth)
  }

  predicate Typed(ds: seq<Declaration>) {
    forall i :: 0 <= i < |ds| ==> ds[i].typeWidth > 0
  }

  function Layout(ds: seq<Declaration>): (fs: seq<FieldInfo>)
    requires Typed(ds)
    ensures |fs| == |ds|
  {
    if ds == [] then []
    else
      var rest := Layout(ds[..|ds| - 1]);
      rest + [Place(ds[|ds| - 1], PositionAfter(rest))]
  }

  function PositionAfter(fs: seq<FieldInfo>): nat {
    if fs == [] then 0 else fs[|fs| - 1].end + 1
  }

  function MaxEnd(fs: seq<FieldInfo>): (m: nat)
    ensures forall i :: 0 <= i < |fs| ==> fs[i].end <= m
  {
    if fs == [] then 0 else Max(MaxEnd(fs[..|fs| - 1]), fs[|fs| - 1].end)
  }

  lemma {:induction false} MaxEndIsReached(fs: seq<FieldInfo>)
    requires fs != []
    ensures exists i :: 0 <= i < |fs| && fs[i].end == MaxEnd(fs)
    decreases |fs|
  {
    var n := |fs| - 1;
    if n == 0 {
      assert fs[0].end == MaxEnd(fs);
    } else {
      MaxEndIsReached(fs[..n]);
      var i :| 0 <= i < n && fs[i].end == MaxEnd(fs[..n]);
      assert fs[if fs[n].end < fs[i].end then i else n].end == MaxEnd(fs);
    }
  }

  /** The size in bytes: all fields lie inside, and one lies in the last byte. A struct without fields has one byte. */
  ghost predicate ExactSize(fs: seq<FieldInfo>, totalBytes: nat) {
    && (fs == [] ==> totalBytes == 1)
    && (forall i :: 0 <= i < |fs| ==> fs[i].end < 8 * totalBytes)
    && (fs != [] ==> exists i :: 0 <= i < |fs| && fs[i].end / 8 + 1 == totalBytes)
  }

  lemma SizeIsExact(fs: seq<FieldInfo>)
    ensures ExactSize(fs, (MaxEnd(fs) + 8) / 8)
  {
    if fs != [] {
      MaxEndIsReached(fs);
      var i :| 0 <= i < |fs| && fs[i].end == MaxEnd(fs);
      assert fs[i].end / 8 + 1 == (MaxEnd(fs) + 8) / 8;
    }
  }

  /** Field `i` is where its declaration says, or right behind the field before it, as wide as its type. */
  ghost predicate PlacedAsDeclared(ds: seq<Declaration>, fs: seq<FieldInfo>, i: nat)
    requires |fs| == |ds| && i < |ds|
  {
    && fs[i].typeWidth == ds[i].typeWidth
    && (ds[i].range.Some? ==> fs[i].start == ds[i].range.value.start && fs[i].end == ds[i].range.value.end)
    && (ds[i].range.None? ==>
          && fs[i].start == (if i == 0 then 0 else fs[i - 1].end + 1)
          && fs[i].end - fs[i].start + 1 == ds[i].typeWidth)
  }

  lemma {:induction false} LayoutFollowsDeclarations(ds: seq<Declaration>, i: nat)
    requires Typed(ds) && i < |ds|
    ensures PlacedAsDeclared(ds, Layout(ds), i)
    decreases |ds|
  {
    var n := |ds| - 1;
    if i == n {
    } else {
      LayoutFollowsDeclarations(ds[..n], i);
      assert Layout(ds)[..n] == Layout(ds[..n]);
    }
  }

  /** The whole layout: every field as declared, and the size exact. */
  ghost predicate LaidOut(ds: seq<Declaration>, fs: seq<FieldInfo>, totalBytes: nat) {
    |fs| == |ds| && ExactSize(fs, totalBytes) && forall i :: 0 <= i < |ds| ==> PlacedAsDeclared(ds, fs, i)
  }

  lemma LayoutIsAsDeclared(ds: seq<Declaration>)
    requires Typed(ds)
    ensures LaidOut(ds, Layout(ds), (MaxEnd(Layout(ds)) + 8) / 8)
  {
    SizeIsExact(Layout(ds));
    forall i | 0 <= i < |ds| ensures PlacedAsDeclared(ds, Layout(ds), i) { LayoutFollowsDeclarations(ds, i); }
  }

  method ComputeLayout(ds: seq<Declaration>) returns (fs: seq<FieldInfo>, totalBytes: nat)
    requires Typed(ds)
    ensures fs == Layout(ds) && totalBytes == (MaxEnd(fs) + 8) / 8
    ensures LaidOut(ds, fs, totalBytes)
  {
    fs := [];
    var currentBit, maxBit := 0, 0;
    for i := 0 to |ds|
      invariant fs == Layout(ds[..i]) && currentBit == PositionAfter(fs) && maxBit == MaxEnd(fs)
    {
      var start, end;
      match ds[i].range {
        case Some(r) =>
          currentBit := r.end + 1;
          start, end := r.start, r.end;
        case None =>
          start := currentBit;
          end := currentBit + ds[i].typeWidth - 1;
          currentBit := end + 1;
      }
      assert ds[..i + 1][..i] == ds[..i];
      fs := fs + [FieldInfo(start, end, ds[i].typeWidth)];
      assert fs[..i] == Layout(ds[..i]);
      maxBit := Max(maxBit, end);
    }
    assert ds[..|ds|] == ds;
    totalBytes := (maxBit + 8) / 8;
    LayoutIsAsDeclared(ds);
  }

  /** Every written-out range is non-empty and starts at or behind the running position. */
  ghost predicate InOrder(ds: seq<Declaration>)
    requires Typed(ds)
  {
    forall i :: 0 <= i < |ds| && ds[i].range.Some? ==>
      PositionAfter(Layout(ds[..i])) <= ds[i].range.value.start <= ds[i].range.value.end
  }

  /** The fields follow each other without sharing a bit. */
  ghost predicate Ascending(fs: seq<FieldInfo>) {
    && (forall i :: 0 <= i < |fs| ==> fs[i].start <= fs[i].end)
    && (forall i, j :: 0 <= i < j < |fs| ==> fs[i].end < fs[j].start)
  }

  /** They also lie inside the bytes of the struct. */
  ghost predicate Separate(fs: seq<FieldInfo>, totalBytes: nat) {
    Ascending(fs) && forall i :: 0 <= i < |fs| ==> fs[i].end < 8 * totalBytes
  }

  lemma AscendingAppend(fs: seq<FieldInfo>, f: FieldInfo)
    requires Ascending(fs) && PositionAfter(fs) <= f.start <= f.end
    ensures Ascending(fs + [f])
  {
    var n := |fs|;
    forall i | 0 <= i < n ensures fs[i].end < f.start {
      if i < n - 1 { assert fs[i].end < fs[n - 1].start; }
    }
  }

  lemma {:induction false} LayoutAscends(ds: seq<Declaration>)
    requires Typed(ds) && InOrder(ds)
    ensures Ascending(Layout(ds))
    decreases |ds|
  {
    if ds == [] {
    } else {
      var n := |ds| - 1;
      var init := ds[..n];
      assert forall i :: 0 <= i < n ==> init[..i] == ds[..i];
      LayoutAscends(init);
      AscendingAppend(Layout(init), Place(ds[n], PositionAfter(Layout(init))));
    }
  }

  /** If the written-out ranges come in order, no two fields share a bit and all lie in the struct. */
  lemma LayoutIsSeparate(ds: seq<Declaration>)
    requires Typed(ds) && InOrder(ds)
    ensures Separate(Layout(ds), (MaxEnd(Layout(ds)) + 8) / 8)
  {
    LayoutAscends(ds);
  }

  /** The values fit the accessors: every field at most 63 bits wide. */
  ghost predicate Narrow(fs: seq<FieldInfo>) {
    forall i :: 0 <= i < |fs| ==> fs[i].end - fs[i].start + 1 <= 63
  }

  ghost predicate FieldHas(data: seq<nat>, f: FieldInfo, value: nat) {
    && f.start <= f.end < 8 * |data|
    && Field(data, f.start, f.end - f.start + 1) == Truncate(value, f.end - f.start + 1)
  }

  // ---------- What one field asks of the bits ----------

  predicate Inside(f: FieldInfo, b: nat) { f.start <= b <= f.end }

  /** What writing `value` to `f` asks of bit `b` of the struct. */
  predicate Wants(f: FieldInfo, value: nat, b: nat) { Inside(f, b) && Bit(value, b - f.start) }

  ghost predicate Agree(f: FieldInfo, v: nat, g: FieldInfo, u: nat) {
    forall b: nat :: Inside(f, b) && Inside(g, b) ==> Wants(f, v, b) == Wants(g, u, b)
  }

  ghost predicate Shows(data: seq<nat>, f: FieldInfo, value: nat)
    requires f.end < 8 * |data|
  {
    forall b: nat :: Inside(f, b) ==> StructBit(data, b) == Wants(f, value, b)
  }

  /** A field has a value exactly when every one of its bits shows it. */
  lemma FieldHasIsShows(data: seq<nat>, f: FieldInfo, value: nat)
    requires f.start <= f.end < 8 * |data|
    ensures FieldHas(data, f, value) <==> Shows(data, f, value)
  {
    var w := f.end - f.start + 1;
    if FieldHas(data, f, value) {
      forall b: nat | Inside(f, b) ensures StructBit(data, b) == Wants(f, value, b) {
        FieldBit(data, f.start, w, b - f.start);
        TruncateBit(value, w, b - f.start);
        assert f.start + (b - f.start) == b;
      }
    }
    if Shows(data, f, value) {
      forall i: nat ensures Bit(Truncate(value, w), i) <==> i < w && StructBit(data, f.start + i) {
        TruncateBit(value, w, i);
        if i < w { assert Inside(f, f.start + i) && f.start + i - f.start == i; }
      }
      FieldIs(data, f.start, w, Truncate(value, w));
    }
  }

  // ---------- The constructor, for fields that may overlap ----------

  /** The last of the first `n` fields that covers bit `b`. */
  function LastOver(fs: seq<FieldInfo>, n: nat, b: nat): (w: Option<nat>)
    requires n <= |fs|
    ensures w.Some? ==> w.value < n && Inside(fs[w.value], b) && forall j :: w.value < j < n ==> !Inside(fs[j], b)
    ensures w.None? ==> forall j :: 0 <= j < n ==> !Inside(fs[j], b)
  {
    if n == 0 then None
    else if Inside(fs[n - 1], b) then Some(n - 1)
    else LastOver(fs, n - 1, b)
  }

  /** What the last field over bit `b` asks of it; a bit under no field stays clear. */
  predicate Asked(fs: seq<FieldInfo>, values: seq<nat>, n: nat, b: nat)
    requires n <= |fs| == |values|
  {
    var w := LastOver(fs, n, b);
    w.Some? && Wants(fs[w.value], values[w.value], b)
  }

  /** Every bit holds what the last of the first `n` fields over it asks. */
  ghost predicate LastWins(fs: seq<FieldInfo>, values: seq<nat>, n: nat, data: seq<nat>)
    requires n <= |fs| == |values|
  {
    forall b: nat :: b < 8 * |data| ==> StructBit(data, b) == Asked(fs, values, n, b)
  }

  /** On every bit of field `i`, the last field over that bit asks the same as field `i` does. */
  ghost predicate Unopposed(fs: seq<FieldInfo>, values: seq<nat>, i: nat)
    requires i < |fs| == |values|
  {
    forall b: nat :: Inside(fs[i], b) ==> Asked(fs, values, |fs|, b) == Wants(fs[i], values[i], b)
  }

  lemma NextWriteWins(fs: seq<FieldInfo>, values: seq<nat>, n: nat, was: seq<nat>, now: seq<nat>)
    requires n < |fs| == |values| && LastWins(fs, values, n, was)
    requires Written(was, now, fs[n].start, fs[n].end, values[n])
    ensures LastWins(fs, values, n + 1, now)
  {
    forall b: nat | b < 8 * |now| ensures StructBit(now, b) == Asked(fs, values, n + 1, b) {
      assert StructBit(was, b) == Asked(fs, values, n, b);
    }
  }

  /** Where the last write wins, a field has its own value exactly when it is unopposed. */
  lemma UnopposedFieldsKeepTheirs(fs: seq<FieldInfo>, values: seq<nat>, i: nat, data: seq<nat>)
    requires i < |fs| == |values| && fs[i].start <= fs[i].end < 8 * |data|
    requires LastWins(fs, values, |fs|, data)
    ensures FieldHas(data, fs[i], values[i]) <==> Unopposed(fs, values, i)
  {
    FieldHasIsShows(data, fs[i], values[i]);
    if Shows(data, fs[i], values[i]) {
      forall b: nat | Inside(fs[i], b) ensures Asked(fs, values, |fs|, b) == Wants(fs[i], values[i], b) {
        assert StructBit(data, b) == Wants(fs[i], values[i], b);
      }
    }
  }

  /** Fields that share no bit are unopposed, whatever the arguments. */
  lemma SeparateFieldsAreUnopposed(fs: seq<FieldInfo>, values: seq<nat>, i: nat)
    requires i < |fs| == |values| && Ascending(fs)
    ensures Unopposed(fs, values, i)
  {
    forall b: nat | Inside(fs[i], b) ensures Asked(fs, values, |fs|, b) == Wants(fs[i], values[i], b) {
      var w := LastOver(fs, |fs|, b);
      assert w.Some? && i <= w.value;
    }
  }

  /** Non-empty fields inside the bytes of the struct, in any order and overlapping or not. */
  ghost predicate InBounds(fs: seq<FieldInfo>, totalBytes: nat) {
    forall i :: 0 <= i < |fs| ==> fs[i].start <= fs[i].end < 8 * totalBytes
  }

  lemma ClearBytes(data: seq<nat>, b: nat)
    requires b < 8 * |data| && forall i :: 0 <= i < |data| ==> data[i] == 0
    ensures !StructBit(data, b)
  {
    ZeroBit(b % 8);
  }

  /**
   * `with_fields`: set one field after the other. Afterwards a field holds its own argument exactly
   * when no later field has asked for something else on a bit they share.
   */
  method WithFields(fs: seq<FieldInfo>, values: seq<nat>, totalBytes: nat) returns (p: Packed)
    requires |values| == |fs| && InBounds(fs, totalBytes) && Narrow(fs)
    ensures fresh(p) && fresh(p.data) && p.Valid() && p.data.Length == totalBytes
    ensures LastWins(fs, values, |fs|, p.data[..])
    ensures forall i :: 0 <= i < |fs| ==> (FieldHas(p.data[..], fs[i], values[i]) <==> Unopposed(fs, values, i))
    ensures Ascending(fs) ==> forall i :: 0 <= i < |fs| ==> FieldHas(p.data[..], fs[i], values[i])
  {
    p := new Packed(totalBytes);
    forall b: nat | b < 8 * totalBytes ensures !StructBit(p.data[..], b) { ClearBytes(p.data[..], b); }
    for n := 0 to |fs|
      invariant p.Valid()
      invariant LastWins(fs, values, n, p.data[..])
    {
      ghost var was := p.data[..];
      p.Set(fs[n].start, fs[n].end, values[n]);
      NextWriteWins(fs, values, n, was, p.data[..]);
    }
    forall i | 0 <= i < |fs|
      ensures FieldHas(p.data[..], fs[i], values[i]) <==> Unopposed(fs, values, i)
      ensures Ascending(fs) ==> Unopposed(fs, values, i)
    {
      UnopposedFieldsKeepTheirs(fs, values, i, p.data[..]);
      if Ascending(fs) { SeparateFieldsAreUnopposed(fs, values, i); }
    }
  }

  /** An argument that fits the field and the type comes back from the getter unchanged. */
  lemma FittingArgumentIsReturned(data: seq<nat>, f: FieldInfo, value: nat)
    requires FieldHas(data, f, value) && value < Pow2(f.end - f.start + 1) && value < Pow2(f.typeWidth)
    ensures Truncate(Field(data, f.start, f.end - f.start + 1), f.typeWidth) == value
  {
    TruncateFitting(value, f.end - f.start + 1);
    TruncateFitting(value, f.typeWidth);
  }

  // ---------- Two fields, on any bytes ----------

  lemma LastWriterShows(was: seq<nat>, mid: seq<nat>, now: seq<nat>, f: FieldInfo, v: nat, g: FieldInfo, u: nat, b: nat)
    requires f.start <= f.end < 8 * |was| && g.start <= g.end < 8 * |was| && Inside(f, b)
    requires Written(was, mid, f.start, f.end, v) && Written(mid, now, g.start, g.end, u)
    ensures StructBit(now, b) == if Inside(g, b) then Wants(g, u, b) else Wants(f, v, b)
  {
    assert StructBit(mid, b) == Wants(f, v, b);
  }

  lemma ShowsWhenAgreed(data: seq<nat>, f: FieldInfo, v: nat, g: FieldInfo, u: nat)
    requires f.end < 8 * |data|
    requires forall b: nat :: Inside(f, b) ==> StructBit(data, b) == if Inside(g, b) then Wants(g, u, b) else Wants(f, v, b)
    ensures Shows(data, f, v) <==> Agree(f, v, g, u)
  {
  }

  /** Two fields written one after the other both read back exactly when they agree on the bits they share. */
  lemma OverlapKeepsExactlyWhen(was: seq<nat>, mid: seq<nat>, now: seq<nat>, f: FieldInfo, v: nat, g: FieldInfo, u: nat)
    requires f.start <= f.end < 8 * |was| && g.start <= g.end < 8 * |was|
    requires Written(was, mid, f.start, f.end, v) && Written(mid, now, g.start, g.end, u)
    ensures FieldHas(now, g, u)
    ensures FieldHas(now, f, v) <==> Agree(f, v, g, u)
  {
    GetAfterSet(mid, now, g.start, g.end, u);
    FieldHasIsShows(now, f, v);
    forall b: nat | Inside(f, b) ensures StructBit(now, b) == if Inside(g, b) then Wants(g, u, b) else Wants(f, v, b) {
      LastWriterShows(was, mid, now, f, v, g, u, b);
    }
    ShowsWhenAgreed(now, f, v, g, u);
  }
}
