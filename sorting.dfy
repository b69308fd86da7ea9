// Ordering by a numeric key, descending, as the "ORDER BY count DESC" queries
// and the report's sorted(Map.Entry.comparingByValue().reversed()) do.
module Sorting {

  predicate SortedDesc<T>(s: seq<T>, key: T -> int)
  {
    forall i, j :: 0 <= i < j < |s| ==> key(s[i]) >= key(s[j])
  }

  /** Inserts x before the first element whose key does not exceed key(x). */
  function Insert<T>(x: T, s: seq<T>, key: T -> int): (r: seq<T>)
    ensures multiset(r) == multiset(s) + multiset{x}
    ensures |r| == |s| + 1
  {
    if |s| == 0 || key(s[0]) <= key(x) then [x] + s
    else
      assert s == [s[0]] + s[1..];
      [s[0]] + Insert(x, s[1..], key)
  }

  lemma {:induction false} InsertSorted<T>(x: T, s: seq<T>, key: T -> int)
    requires SortedDesc(s, key)
    ensures SortedDesc(Insert(x, s, key), key)
  {
    if |s| == 0 || key(s[0]) <= key(x) {
    } else {
      var rest := Insert(x, s[1..], key);
      InsertSorted(x, s[1..], key);
      assert s == [s[0]] + s[1..];
      forall y | y in rest ensures key(y) <= key(s[0]) {
        assert y in multiset(rest);
        assert y == x || y in multiset(s[1..]);
      }
      assert Insert(x, s, key) == [s[0]] + rest;
    }
  }

  /** Stable-for-earlier-elements insertion sort, non-increasing by key. */
  function SortDesc<T>(s: seq<T>, key: T -> int): (r: seq<T>)
    ensures multiset(r) == multiset(s)
    ensures |r| == |s|
    ensures SortedDesc(r, key)
  {
    if |s| == 0 then []
    else
      assert s == [s[0]] + s[1..];
      InsertSorted(s[0], SortDesc(s[1..], key), key);
      Insert(s[0], SortDesc(s[1..], key), key)
  }

  /** The first k elements (Stream.limit). */
  function Take<T>(s: seq<T>, k: nat): (r: seq<T>)
    ensures |r| == if k < |s| then k else |s|
    ensures r <= s
  {
    if k < |s| then s[..k] else s
  }

  lemma {:induction false} TakeSorted<T>(s: seq<T>, k: nat, key: T -> int)
    requires SortedDesc(s, key)
    ensures SortedDesc(Take(s, k), key)
    ensures forall i, j :: 0 <= i < |Take(s, k)| <= j < |s| ==> key(s[i]) >= key(s[j])
  {
  }

  /** m is a least element of s. */
  predicate IsMinOf(m: nat, s: set<nat>)
  {
    m in s && forall y | y in s :: m <= y
  }

  lemma {:induction false} MinExists(s: set<nat>)
    requires s != {}
    ensures exists m :: IsMinOf(m, s)
    decreases |s|
  {
    var x :| x in s;
    if s == {x} {
      assert IsMinOf(x, s);
    } else {
      var rest := s - {x};
      MinExists(rest);
      var m :| IsMinOf(m, rest);
      var best := if x <= m then x else m;
      forall y | y in s ensures best <= y {
        if y != x {
          assert y in rest;
        }
      }
      assert IsMinOf(best, s);
    }
  }

  function Min(s: set<nat>): (m: nat)
    requires s != {}
    ensures m in s && forall y | y in s :: m <= y
  {
    MinExists(s);
    var m :| IsMinOf(m, s); m
  }

  /** The elements of a finite set of identifiers in increasing order: a deterministic iteration order. */
  function Ascending(s: set<nat>): (r: seq<nat>)
    ensures |r| == |s|
    ensures forall x :: x in r <==> x in s
    ensures forall i, j :: 0 <= i < j < |r| ==> r[i] < r[j]
    decreases |s|
  {
    if s == {} then []
    else
      var m := Min(s);
      var rest := Ascending(s - {m});
      assert |s - {m}| == |s| - 1;
      ConsIncreasing(m, rest);
      [m] + rest
  }

  lemma ConsIncreasing(m: nat, rest: seq<nat>)
    requires forall x :: x in rest ==> m < x
    requires forall i, j :: 0 <= i < j < |rest| ==> rest[i] < rest[j]
    ensures forall i, j :: 0 <= i < j < |[m] + rest| ==> ([m] + rest)[i] < ([m] + rest)[j]
  {
    var r := [m] + rest;
    forall i, j | 0 <= i < j < |r| ensures r[i] < r[j] {
      assert r[j] == rest[j - 1];
      if i > 0 { assert r[i] == rest[i - 1]; } else { assert rest[j - 1] in rest; }
    }
  }

  /** An element of a sorted sequence that Take leaves out: the prefix is full and no key in it is smaller. */
  lemma TakeLeavesOutSmaller<T>(s: seq<T>, k: nat, key: T -> int, x: T)
    requires SortedDesc(s, key) && x in s && x !in Take(s, k)
    ensures |Take(s, k)| == k
    ensures forall i :: 0 <= i < |Take(s, k)| ==> key(Take(s, k)[i]) >= key(x)
  {
    var j :| 0 <= j < |s| && s[j] == x;
    assert j >= |Take(s, k)|;
  }

  lemma {:induction false} MultiplicityOne(asc: seq<nat>, x: nat)
    requires forall a, b :: 0 <= a < b < |asc| ==> asc[a] < asc[b]
    ensures multiset(asc)[x] <= 1
    decreases |asc|
  {
    if |asc| > 0 {
      assert asc == [asc[0]] + asc[1..];
      MultiplicityOne(asc[1..], x);
      if asc[0] == x {
        assert x !in asc[1..];
      }
    }
  }

  /** A reordering of a strictly increasing sequence repeats nothing. */
  lemma PermutationDistinct(asc: seq<nat>, s: seq<nat>)
    requires forall a, b :: 0 <= a < b < |asc| ==> asc[a] < asc[b]
    requires multiset(s) == multiset(asc)
    ensures forall i, j :: 0 <= i < j < |s| ==> s[i] != s[j]
  {
    forall i, j | 0 <= i < j < |s| ensures s[i] != s[j] {
      if s[i] == s[j] {
        var x := s[i];
        assert s == s[..i] + [x] + s[i + 1..j] + [x] + s[j + 1..];
        assert multiset(s)[x] >= 2;
        MultiplicityOne(asc, x);
        assert false;
      }
    }
  }

  /** A set listed by falling key: each element once, nothing else. */
  lemma SortSetSpec(s: set<nat>, key: nat -> int)
    ensures forall x :: x in SortDesc(Ascending(s), key) <==> x in s
    ensures forall i, j :: 0 <= i < j < |SortDesc(Ascending(s), key)| ==> SortDesc(Ascending(s), key)[i] != SortDesc(Ascending(s), key)[j]
    ensures |SortDesc(Ascending(s), key)| == |s|
  {
    var asc := Ascending(s);
    var sorted := SortDesc(asc, key);
    PermutationDistinct(asc, sorted);
    forall x ensures x in sorted <==> x in s {
      assert x in sorted <==> x in multiset(sorted);
      assert x in asc <==> x in multiset(asc);
    }
  }
}
