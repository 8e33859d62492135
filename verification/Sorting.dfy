/** Sorting by a strict order, and the order of byte strings. */
module Sorting {
  import opened Types

  /** Byte strings in dictionary order. */
  predicate LexLess(a: Bytes, b: Bytes) {
    if b == [] then false
    else if a == [] then true
    else a[0] < b[0] || (a[0] == b[0] && LexLess(a[1..], b[1..]))
  }

  /** At the first difference the smaller byte decides, and a proper prefix comes first. */
  lemma {:induction false} LexLessIff(a: Bytes, b: Bytes)
    ensures LexLess(a, b) <==>
              exists i :: 0 <= i <= |a| && i < |b| && a[..i] == b[..i] && (i < |a| ==> a[i] < b[i])
  {
    if a != [] && b != [] && a[0] == b[0] {
      LexLessIff(a[1..], b[1..]);
      if LexLess(a, b) {
        var i :| 0 <= i <= |a[1..]| && i < |b[1..]| && a[1..][..i] == b[1..][..i]
          && (i < |a[1..]| ==> a[1..][i] < b[1..][i]);
        assert a[..i + 1] == [a[0]] + a[1..][..i] && b[..i + 1] == [b[0]] + b[1..][..i];
      }
      if i :| 0 <= i <= |a| && i < |b| && a[..i] == b[..i] && (i < |a| ==> a[i] < b[i]) {
        assert i > 0;
        assert a[1..][..i - 1] == a[..i][1..] == b[..i][1..] == b[1..][..i - 1];
      }
    } else if a != [] && b != [] && a[0] < b[0] {
      assert a[..0] == b[..0];
    } else if a == [] && b != [] {
      assert a[..0] == b[..0];
    }
  }

  lemma {:induction false} LexIsStrict(a: Bytes, b: Bytes)
    ensures !(LexLess(a, b) && LexLess(b, a))
    ensures LexLess(a, b) ==> a != b
  {
    if a != [] && b != [] {
      LexIsStrict(a[1..], b[1..]);
    }
  }

  lemma {:induction false} LexIsTransitive(a: Bytes, b: Bytes, c: Bytes)
    requires LexLess(a, b) && LexLess(b, c)
    ensures LexLess(a, c)
  {
    if a != [] && a[0] == b[0] == c[0] {
      LexIsTransitive(a[1..], b[1..], c[1..]);
    }
  }

  lemma {:induction false} LexIsTotal(a: Bytes, b: Bytes)
    requires a != b
    ensures LexLess(a, b) || LexLess(b, a)
  {
    if a != [] && b != [] && a[0] == b[0] {
      assert a == [a[0]] + a[1..] && b == [b[0]] + b[1..];
      LexIsTotal(a[1..], b[1..]);
    }
  }

  ghost predicate StrictOrder<T(!new)>(before: (T, T) -> bool) {
    && (forall a, b :: before(a, b) ==> !before(b, a))
    && (forall a, b, c :: before(a, b) && before(b, c) ==> before(a, c))
  }

  ghost predicate Sorted<T>(items: seq<T>, before: (T, T) -> bool) {
    forall i, j :: 0 <= i < j < |items| ==> !before(items[j], items[i])
  }

  /** Sorts without losing or inventing an item. */
  method InsertionSort<T(!new)>(items: seq<T>, before: (T, T) -> bool) returns (sorted: seq<T>)
    requires StrictOrder(before)
    ensures multiset(sorted) == multiset(items) && Sorted(sorted, before)
  {
    sorted := [];
    for i := 0 to |items|
      invariant multiset(sorted) == multiset(items[..i]) && Sorted(sorted, before)
    {
      assert items[..i + 1] == items[..i] + [items[i]];
      sorted := Insert(sorted, items[i], before);
    }
    assert items[..|items|] == items;
  }

  method Insert<T(!new)>(sorted: seq<T>, item: T, before: (T, T) -> bool) returns (r: seq<T>)
    requires StrictOrder(before) && Sorted(sorted, before)
    ensures multiset(r) == multiset(sorted) + multiset{item} && Sorted(r, before)
  {
    var k := 0;
    while k < |sorted| && !before(item, sorted[k])
      invariant k <= |sorted|
      invariant forall i :: 0 <= i < k ==> !before(item, sorted[i])
    {
      k := k + 1;
    }
    r := sorted[..k] + [item] + sorted[k..];
    assert sorted == sorted[..k] + sorted[k..];
    InsertedAt(sorted, item, k, before);
  }

  lemma InsertedAt<T(!new)>(sorted: seq<T>, item: T, k: nat, before: (T, T) -> bool)
    requires StrictOrder(before) && Sorted(sorted, before) && k <= |sorted|
    requires forall i :: 0 <= i < k ==> !before(item, sorted[i])
    requires k < |sorted| ==> before(item, sorted[k])
    ensures Sorted(sorted[..k] + [item] + sorted[k..], before)
  {
    var r := sorted[..k] + [item] + sorted[k..];
    forall i | 0 <= i < |r|
      ensures r[i] == if i < k then sorted[i] else if i == k then item else sorted[i - 1]
    {
    }
    forall i, j | 0 <= i < j < |r| ensures !before(r[j], r[i]) {
      if i == k && j > k + 1 {
        assert !before(sorted[j - 1], sorted[k]);
      }
    }
  }

  ghost predicate Distinct<T>(s: seq<T>) {
    forall i, j :: 0 <= i < j < |s| ==> s[i] != s[j]
  }

  lemma {:induction false} DistinctOnce<T>(s: seq<T>, x: T)
    ensures Distinct(s) ==> multiset(s)[x] <= 1
  {
    if s != [] {
      DistinctOnce(s[1..], x);
      assert s == [s[0]] + s[1..];
      assert Distinct(s) ==> s[0] !in s[1..];
      assert s[0] in s[1..] <==> s[0] in multiset(s[1..]);
    }
  }

  lemma RepeatedTwice<T>(s: seq<T>, i: nat, j: nat)
    requires i < j < |s| && s[i] == s[j]
    ensures multiset(s)[s[i]] >= 2
  {
    assert s == s[..i] + [s[i]] + s[i + 1..j] + [s[j]] + s[j + 1..];
  }

  lemma SameItemsDistinct<T>(a: seq<T>, b: seq<T>)
    requires multiset(a) == multiset(b) && Distinct(a)
    ensures Distinct(b)
  {
    forall i, j | 0 <= i < j < |b| ensures b[i] != b[j] {
      DistinctOnce(a, b[i]);
      if b[i] == b[j] {
        RepeatedTwice(b, i, j);
      }
    }
  }

  lemma SameItems<T>(a: seq<T>, b: seq<T>)
    requires multiset(a) == multiset(b)
    ensures |a| == |b| && forall x :: x in a <==> x in b
  {
    assert |multiset(a)| == |a| && |multiset(b)| == |b|;
    forall x ensures x in a <==> x in b {
      assert x in a <==> x in multiset(a);
    }
  }
}
