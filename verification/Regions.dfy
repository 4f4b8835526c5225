/** Memory regions and the ordered sequence of free regions that the tree stands for. */
module Regions {

  datatype Region = Region(base: nat, size: nat) {
    function End(): nat { base + size }
  }

  /** The bases are strictly increasing: the keys of a strict search tree. */
  ghost predicate StrictlySorted(s: seq<Region>) {
    forall i, j :: 0 <= i < j < |s| ==> s[i].base < s[j].base
  }

  /** The bases do not decrease; equal keys may stand next to each other. */
  ghost predicate Sorted(s: seq<Region>) {
    forall i, j :: 0 <= i < j < |s| ==> s[i].base <= s[j].base
  }

  /** Consecutive regions leave a gap between them. */
  ghost predicate Separated(s: seq<Region>) {
    forall i, j :: 0 <= i < j < |s| ==> s[i].End() < s[j].base
  }

  ghost predicate HasKey(s: seq<Region>, key: nat) {
    exists i :: 0 <= i < |s| && s[i].base == key
  }

  lemma SeparatedIsSorted(s: seq<Region>)
    requires Separated(s)
    ensures StrictlySorted(s)
  {
  }

  // ---------- Inserting and removing one region ----------

  /** Places `r` behind every region whose base is at most its own. */
  function InsertInOrder(s: seq<Region>, r: Region): (t: seq<Region>)
    ensures |t| == |s| + 1
  {
    if s == [] then [r]
    else if r.base < s[0].base then [r] + s
    else [s[0]] + InsertInOrder(s[1..], r)
  }

  function RemoveKey(s: seq<Region>, key: nat): (t: seq<Region>)
    ensures |t| <= |s|
  {
    if s == [] then []
    else if s[0].base == key then s[1..]
    else [s[0]] + RemoveKey(s[1..], key)
  }

  /** The new region goes behind all that begin at or below it, which splits the sequence in two. */
  lemma {:induction false} InsertPlace(s: seq<Region>, r: Region) returns (k: nat)
    ensures k <= |s| && InsertInOrder(s, r) == s[..k] + [r] + s[k..]
    ensures forall i :: 0 <= i < k ==> s[i].base <= r.base
    ensures Sorted(s) ==> forall i :: k <= i < |s| ==> r.base < s[i].base
  {
    if s == [] || r.base < s[0].base {
      k := 0;
    } else {
      var j := InsertPlace(s[1..], r);
      k := j + 1;
      assert s[..k] == [s[0]] + s[1..][..j] && s[k..] == s[1..][j..];
    }
  }

  lemma InsertKeepsSorted(s: seq<Region>, r: Region)
    requires Sorted(s)
    ensures Sorted(InsertInOrder(s, r))
  {
    var k := InsertPlace(s, r);
    var t := InsertInOrder(s, r);
    forall i, j | 0 <= i < j < |t| ensures t[i].base <= t[j].base {
      assert i != k ==> t[i] == s[if i < k then i else i - 1];
      assert j != k ==> t[j] == s[if j < k then j else j - 1];
    }
  }

  lemma {:induction false} InsertInFront(a: seq<Region>, c: seq<Region>, r: Region)
    requires c != [] && r.base < c[0].base
    ensures InsertInOrder(a + c, r) == InsertInOrder(a, r) + c
  {
    if a == [] {
      assert a + c == c;
    } else {
      assert (a + c)[1..] == a[1..] + c;
      InsertInFront(a[1..], c, r);
    }
  }

  lemma {:induction false} InsertBehind(a: seq<Region>, c: seq<Region>, r: Region)
    requires forall i :: 0 <= i < |a| ==> a[i].base <= r.base
    ensures InsertInOrder(a + c, r) == a + InsertInOrder(c, r)
  {
    if a == [] {
      assert a + c == c;
    } else {
      assert (a + c)[1..] == a[1..] + c;
      InsertBehind(a[1..], c, r);
    }
  }

  lemma InsertInOrderSplit(a: seq<Region>, x: Region, b: seq<Region>, r: Region)
    requires Sorted(a + [x] + b)
    ensures r.base < x.base ==> InsertInOrder(a + [x] + b, r) == InsertInOrder(a, r) + [x] + b
    ensures x.base <= r.base ==> InsertInOrder(a + [x] + b, r) == a + [x] + InsertInOrder(b, r)
  {
    var s := a + [x] + b;
    if r.base < x.base {
      assert s == a + ([x] + b);
      InsertInFront(a, [x] + b, r);
    } else {
      assert forall i :: 0 <= i < |a| ==> a[i] == s[i] && s[|a|] == x;
      InsertBehind(a + [x], b, r);
    }
  }

  lemma {:induction false} RemoveKeyAbsent(s: seq<Region>, key: nat)
    requires !HasKey(s, key)
    ensures RemoveKey(s, key) == s
  {
    if s == [] {
    } else {
      assert s[0].base != key;
      forall i | 0 <= i < |s[1..]| ensures s[1..][i].base != key {
        assert s[1..][i] == s[i + 1];
      }
      RemoveKeyAbsent(s[1..], key);
    }
  }

  lemma {:induction false} RemoveKeyBehind(a: seq<Region>, b: seq<Region>, key: nat)
    requires !HasKey(a, key)
    ensures RemoveKey(a + b, key) == a + RemoveKey(b, key)
  {
    if a == [] {
      assert a + b == b;
    } else {
      assert a[0].base != key;
      assert (a + b)[1..] == a[1..] + b;
      forall i | 0 <= i < |a[1..]| ensures a[1..][i].base != key { assert a[1..][i] == a[i + 1]; }
      RemoveKeyBehind(a[1..], b, key);
    }
  }

  lemma {:induction false} RemoveKeyInFront(a: seq<Region>, b: seq<Region>, key: nat)
    requires !HasKey(b, key)
    ensures RemoveKey(a + b, key) == RemoveKey(a, key) + b
  {
    if a == [] {
      assert a + b == b;
      RemoveKeyAbsent(b, key);
    } else {
      assert (a + b)[1..] == a[1..] + b;
      RemoveKeyInFront(a[1..], b, key);
    }
  }

  lemma RemoveKeySplit(a: seq<Region>, x: Region, b: seq<Region>, key: nat)
    requires StrictlySorted(a + [x] + b)
    ensures key < x.base ==> RemoveKey(a + [x] + b, key) == RemoveKey(a, key) + [x] + b
    ensures key == x.base ==> RemoveKey(a + [x] + b, key) == a + b
    ensures key > x.base ==> RemoveKey(a + [x] + b, key) == a + [x] + RemoveKey(b, key)
  {
    SortedParts(a, x, b);
    var xb := [x] + b;
    assert a + [x] + b == a + xb && xb[1..] == b;
    if key < x.base {
      RemoveKeyInFront(a, xb, key);
    } else {
      RemoveKeyBehind(a, xb, key);
    }
  }

  /** `RemoveKey` takes out exactly the entry at index `i`. */
  lemma {:induction false} RemoveKeyAt(s: seq<Region>, i: nat)
    requires StrictlySorted(s) && i < |s|
    ensures RemoveKey(s, s[i].base) == s[..i] + s[i + 1..]
  {
    assert s == s[..i] + [s[i]] + s[i + 1..];
    RemoveKeySplit(s[..i], s[i], s[i + 1..], s[i].base);
  }

  /** A sorted sequence splits around any of its elements. */
  lemma SortedParts(a: seq<Region>, x: Region, b: seq<Region>)
    requires StrictlySorted(a + [x] + b)
    ensures StrictlySorted(a) && StrictlySorted(b)
    ensures forall i :: 0 <= i < |a| ==> a[i].base < x.base
    ensures forall i :: 0 <= i < |b| ==> x.base < b[i].base
  {
    var s := a + [x] + b;
    assert s[|a|] == x;
    forall i | 0 <= i < |a| ensures a[i].base < x.base { assert s[i] == a[i]; }
    forall i | 0 <= i < |b| ensures x.base < b[i].base { assert s[|a| + 1 + i] == b[i]; }
    forall i, j | 0 <= i < j < |a| ensures a[i].base < a[j].base { assert s[i] == a[i] && s[j] == a[j]; }
    forall i, j | 0 <= i < j < |b| ensures b[i].base < b[j].base {
      assert s[|a| + 1 + i] == b[i] && s[|a| + 1 + j] == b[j];
    }
  }

  lemma DropKeepsStrict(s: seq<Region>, i: nat)
    requires StrictlySorted(s) && i < |s|
    ensures StrictlySorted(s[..i] + s[i + 1..])
  {
    var t := s[..i] + s[i + 1..];
    forall j, k | 0 <= j < k < |t| ensures t[j].base < t[k].base {
      assert t[j] == s[if j < i then j else j + 1] && t[k] == s[if k < i then k else k + 1];
    }
  }

  lemma RemoveKeySorted(s: seq<Region>, key: nat)
    requires StrictlySorted(s)
    ensures StrictlySorted(RemoveKey(s, key))
  {
    if HasKey(s, key) {
      var i :| 0 <= i < |s| && s[i].base == key;
      RemoveKeyAt(s, i);
      DropKeepsStrict(s, i);
    } else {
      RemoveKeyAbsent(s, key);
    }
  }
}
