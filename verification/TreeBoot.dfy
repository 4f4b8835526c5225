/** Booting: what the tree holds once all memory areas are inserted, whatever the areas are. */
module TreeBoot {
  import opened Regions
  import opened RegionTree
  import opened SizeIndex
  import opened Coalescing
  import opened RegionAllocator

  predicate GapBetween(a: Region, b: Region) { a.End() < b.base || b.End() < a.base }

  /** Any two non-empty areas leave a gap, in whatever order they are listed. */
  ghost predicate Gapped(areas: seq<Region>) {
    forall i, j :: 0 <= i < j < |areas| && areas[i].size > 0 && areas[j].size > 0 ==> GapBetween(areas[i], areas[j])
  }

  function BootTree(areas: seq<Region>): Tree {
    if areas == [] then Nil
    else Insert(BootTree(areas[..|areas| - 1]), areas[|areas| - 1])
  }

  /** The regions in order, as they are put in one after the other. */
  function BootRegions(areas: seq<Region>): seq<Region> {
    if areas == [] then []
    else
      var rest, r := BootRegions(areas[..|areas| - 1]), areas[|areas| - 1];
      if r.size == 0 then rest else InsertInOrder(rest, r)
  }

  /** The tree is in shape and indexed for any areas; equal keys stand next to each other. */
  lemma {:induction false} BootTreeIsOrdered(areas: seq<Region>)
    ensures LlrbUpToRoot(BootTree(areas)) && MaxExact(BootTree(areas))
    ensures Inorder(BootTree(areas)) == BootRegions(areas) && Sorted(BootRegions(areas))
    decreases |areas|
  {
    if areas == [] {
    } else {
      var n := |areas| - 1;
      BootTreeIsOrdered(areas[..n]);
      InsertIsInOrder(BootTree(areas[..n]), areas[n]);
      InsertKeepsSorted(BootRegions(areas[..n]), areas[n]);
    }
  }

  // ---------- The same bytes ----------

  lemma InsertAddsBytes(s: seq<Region>, r: Region, x: nat)
    ensures Total(InsertInOrder(s, r)) == Total(s) + r.size
    ensures Covers(InsertInOrder(s, r), x) <==> Covers(s, x) || Contains(r, x)
  {
    var k := InsertPlace(s, r);
    assert s == s[..k] + s[k..];
    TotalAdds(s[..k] + [r], s[k..]);
    TotalAdds(s[..k], [r]);
    TotalAdds(s[..k], s[k..]);
    CoversOne(r, x);
    CoversParts(s[..k] + [r], s[k..], x);
    CoversParts(s[..k], [r], x);
    CoversParts(s[..k], s[k..], x);
  }

  lemma {:induction false} BootKeepsBytes(areas: seq<Region>, x: nat)
    ensures Total(BootRegions(areas)) == Total(areas)
    ensures Covers(BootRegions(areas), x) <==> Covers(areas, x)
    decreases |areas|
  {
    if areas == [] {
    } else {
      var n := |areas| - 1;
      var rest, r := areas[..n], areas[n];
      assert areas == rest + [r];
      BootKeepsBytes(rest, x);
      TotalAdds(rest, [r]);
      CoversParts(rest, [r], x);
      CoversOne(r, x);
      if r.size > 0 { InsertAddsBytes(BootRegions(rest), r, x); }
    }
  }

  /** The regions are the non-empty areas. */
  lemma {:induction false} BootMembers(areas: seq<Region>, r: Region)
    ensures r in BootRegions(areas) <==> r in areas && r.size > 0
    decreases |areas|
  {
    if areas == [] {
    } else {
      var n := |areas| - 1;
      var rest, last := BootRegions(areas[..n]), areas[n];
      assert areas == areas[..n] + [last];
      BootMembers(areas[..n], r);
      if last.size > 0 {
        var k := InsertPlace(rest, last);
        assert rest == rest[..k] + rest[k..];
      }
    }
  }

  // ---------- The same gaps ----------

  lemma InsertedBetween(a: seq<Region>, r: Region, b: seq<Region>)
    requires Separated(a + b)
    requires forall i :: 0 <= i < |a| ==> a[i].End() < r.base
    requires forall i :: 0 <= i < |b| ==> r.End() < b[i].base
    ensures Separated(a + [r] + b)
  {
    var s, t := a + b, a + [r] + b;
    var k := |a|;
    forall i, j | 0 <= i < j < |t| ensures t[i].End() < t[j].base {
      if j < k || k < i || (i < k && k < j) {
        assert s[if i < k then i else i - 1] == t[i] && s[if j < k then j else j - 1] == t[j];
      } else if i == k {
        assert t[i] == r && t[j] == b[j - 1 - k];
      } else {
        assert t[j] == r && t[i] == a[i];
      }
    }
  }

  lemma InsertKeepsSeparation(s: seq<Region>, r: Region)
    requires Separated(s) && forall x :: x in s ==> GapBetween(x, r)
    ensures Separated(InsertInOrder(s, r))
  {
    SeparatedIsSorted(s);
    var k := InsertPlace(s, r);
    var a, b := s[..k], s[k..];
    assert s == a + b;
    forall i | 0 <= i < |a| ensures a[i].End() < r.base { assert s[i] in s && GapBetween(s[i], r); }
    forall i | 0 <= i < |b| ensures r.End() < b[i].base { assert s[k + i] in s && GapBetween(s[k + i], r); }
    InsertedBetween(a, r, b);
  }

  lemma {:induction false} GappedIsSeparated(areas: seq<Region>)
    requires Gapped(areas)
    ensures Separated(BootRegions(areas))
    decreases |areas|
  {
    if areas == [] {
    } else {
      var n := |areas| - 1;
      var rest, r := BootRegions(areas[..n]), areas[n];
      GappedIsSeparated(areas[..n]);
      if r.size > 0 {
        forall x | x in rest ensures GapBetween(x, r) {
          BootMembers(areas[..n], x);
          var i :| 0 <= i < n && areas[i] == x;
        }
        InsertKeepsSeparation(rest, r);
      }
    }
  }

  /** Two of the regions leave no gap. */
  ghost predicate Close(s: seq<Region>, p: nat, q: nat) {
    p < q < |s| && !GapBetween(s[p], s[q])
  }

  lemma InsertKeepsClose(s: seq<Region>, r: Region, p: nat, q: nat) returns (u: nat, v: nat)
    requires Close(s, p, q)
    ensures Close(InsertInOrder(s, r), u, v)
  {
    var k := InsertPlace(s, r);
    u, v := if p < k then p else p + 1, if q < k then q else q + 1;
  }

  lemma InsertMakesClose(s: seq<Region>, r: Region, p: nat) returns (u: nat, v: nat)
    requires p < |s| && !GapBetween(s[p], r)
    ensures Close(InsertInOrder(s, r), u, v)
  {
    var k := InsertPlace(s, r);
    u, v := if p < k then p else k, if p < k then k else p + 1;
  }

  /** Where two non-empty areas leave no gap, two regions of the tree leave none. */
  lemma {:induction false} MissingGapStays(areas: seq<Region>) returns (p: nat, q: nat)
    requires !Gapped(areas)
    ensures Close(BootRegions(areas), p, q)
    decreases |areas|
  {
    var n := |areas| - 1;
    var rest, r := BootRegions(areas[..n]), areas[n];
    if !Gapped(areas[..n]) {
      p, q := MissingGapStays(areas[..n]);
      if r.size > 0 { p, q := InsertKeepsClose(rest, r, p, q); }
    } else {
      var i, j :| 0 <= i < j < |areas| && areas[i].size > 0 && areas[j].size > 0 && !GapBetween(areas[i], areas[j]);
      assert j == n;
      BootMembers(areas[..n], areas[i]);
      assert areas[..n][i] == areas[i];
      var k :| 0 <= k < |rest| && rest[k] == areas[i];
      p, q := InsertMakesClose(rest, r, k);
    }
  }

  /**
   * Booting from any areas: the tree is in shape and indexed and holds exactly the bytes of the
   * areas, and its regions are separated if and only if the areas are.
   */
  lemma BootIsSafe(areas: seq<Region>)
    ensures LlrbUpToRoot(BootTree(areas)) && MaxExact(BootTree(areas)) && Sorted(Inorder(BootTree(areas)))
    ensures forall r :: r in Inorder(BootTree(areas)) <==> r in areas && r.size > 0
    ensures Total(Inorder(BootTree(areas))) == Total(areas)
    ensures forall x :: Covers(Inorder(BootTree(areas)), x) <==> Covers(areas, x)
    ensures Separated(Inorder(BootTree(areas))) <==> Gapped(areas)
  {
    BootTreeIsOrdered(areas);
    var s := BootRegions(areas);
    forall r ensures r in s <==> r in areas && r.size > 0 { BootMembers(areas, r); }
    forall x ensures Covers(s, x) <==> Covers(areas, x) { BootKeepsBytes(areas, x); }
    BootKeepsBytes(areas, 0);
    if Gapped(areas) {
      GappedIsSeparated(areas);
    } else {
      var p, q := MissingGapStays(areas);
      assert GapBetween(s[p], s[q]) == (s[p].End() < s[q].base || s[q].End() < s[p].base);
      SortedIsNotBehind(s, p, q);
    }
  }

  lemma SortedIsNotBehind(s: seq<Region>, p: nat, q: nat)
    requires Sorted(s) && Close(s, p, q)
    ensures !Separated(s) && s[p].base <= s[q].base <= s[p].End()
  {
  }
}
