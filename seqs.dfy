// Facts about the set of a sequence's elements and about set sizes.
module Seqs {
  /** The set of a sequence's elements. */
  function Elements<T(!new)>(xs: seq<T>): (r: set<T>)
    ensures forall t :: t in r <==> t in xs
  {
    if |xs| == 0 then {} else {xs[0]} + Elements(xs[1..])
  }

  lemma {:induction false} ElementsBound<T(!new)>(xs: seq<T>)
    ensures |Elements(xs)| <= |xs|
    ensures (forall i, j :: 0 <= i < j < |xs| ==> xs[i] != xs[j]) ==> |Elements(xs)| == |xs|
    decreases |xs|
  {
    if |xs| > 0 {
      ElementsBound(xs[1..]);
      var rest := Elements(xs[1..]);
      if xs[0] in rest {
        assert Elements(xs) == rest;
      } else {
        assert |Elements(xs)| == |rest| + 1;
      }
      if forall i, j :: 0 <= i < j < |xs| ==> xs[i] != xs[j] {
        assert forall i, j :: 0 <= i < j < |xs[1..]| ==> xs[1..][i] != xs[1..][j] by {
          forall i, j | 0 <= i < j < |xs[1..]| ensures xs[1..][i] != xs[1..][j] {
            assert xs[1..][i] == xs[i + 1] && xs[1..][j] == xs[j + 1];
          }
        }
        assert xs[0] !in rest by {
          forall k | 0 <= k < |xs[1..]| ensures xs[1..][k] != xs[0] {
            assert xs[1..][k] == xs[k + 1];
          }
        }
      }
    }
  }

  lemma {:induction false} SubsetCard<T>(a: set<T>, b: set<T>)
    requires a <= b
    ensures |a| <= |b|
    decreases |a|
  {
    if a != {} {
      var x :| x in a;
      SubsetCard(a - {x}, b - {x});
    }
  }

  /** Concatenation groups either way. */
  lemma AppendAssoc<T>(x: seq<T>, y: seq<T>, z: seq<T>)
    ensures (x + y) + z == x + (y + z)
  {
    var l := (x + y) + z;
    var r := x + (y + z);
    assert |l| == |r|;
    forall k | 0 <= k < |l| ensures l[k] == r[k] {
      if k < |x| {
      } else if k < |x| + |y| {
      } else {
      }
    }
  }

  predicate Distinct<T(==)>(xs: seq<T>)
  {
    forall i, j :: 0 <= i < j < |xs| ==> xs[i] != xs[j]
  }

  /** A repeated element leaves fewer distinct elements than positions. */
  lemma RepeatShrinks<T(!new)>(xs: seq<T>, i: nat, j: nat)
    requires i < j < |xs| && xs[i] == xs[j]
    ensures |Elements(xs)| < |xs|
  {
    var rest := xs[..j] + xs[j + 1..];
    assert |rest| == |xs| - 1;
    forall t | t in Elements(xs) ensures t in Elements(rest) {
      var k :| 0 <= k < |xs| && xs[k] == t;
      if k < j {
        assert rest[k] == t;
      } else if k == j {
        assert rest[i] == t;
      } else {
        assert rest[k - 1] == t;
      }
    }
    SubsetCard(Elements(xs), Elements(rest));
    ElementsBound(rest);
  }

  /**
   * Counting the listed values a subject has: at most the list's length,
   * exactly the length only when every listed value is had, and, for a list
   * without repeats, exactly the length when every listed value is had.
   */
  lemma HitCount<T(!new)>(hit: set<T>, xs: seq<T>)
    requires hit <= Elements(xs)
    ensures |hit| <= |xs|
    ensures |hit| == |xs| ==> hit == Elements(xs)
    ensures Distinct(xs) && hit == Elements(xs) ==> |hit| == |xs|
  {
    ElementsBound(xs);
    SubsetCard(hit, Elements(xs));
    if |hit| == |xs| && hit != Elements(xs) {
      var t :| t in Elements(xs) && t !in hit;
      SubsetCard(hit, Elements(xs) - {t});
    }
  }

  lemma {:induction false} DistinctMultiplicity<T>(xs: seq<T>, x: T)
    requires Distinct(xs)
    ensures multiset(xs)[x] <= 1
    decreases |xs|
  {
    if |xs| > 0 {
      assert xs == [xs[0]] + xs[1..];
      DistinctMultiplicity(xs[1..], x);
      if xs[0] == x {
        assert x !in xs[1..];
      }
    }
  }

  /** A reordering of a sequence without repeats has none either. */
  lemma DistinctPermutation<T>(xs: seq<T>, ys: seq<T>)
    requires Distinct(xs) && multiset(ys) == multiset(xs)
    ensures Distinct(ys)
  {
    forall i, j | 0 <= i < j < |ys| ensures ys[i] != ys[j] {
      if ys[i] == ys[j] {
        var x := ys[i];
        assert ys == ys[..i] + [x] + ys[i + 1..j] + [x] + ys[j + 1..];
        assert multiset(ys)[x] >= 2;
        DistinctMultiplicity(xs, x);
        assert false;
      }
    }
  }

  /** The sequence without any occurrence of x, the rest in their order (Array.prototype.filter with !==). */
  function Without<T(==,!new)>(xs: seq<T>, x: T): (r: seq<T>)
    ensures forall y :: y in r <==> y in xs && y != x
    ensures |r| <= |xs|
    decreases |xs|
  {
    if |xs| == 0 then []
    else
      var rest := Without(xs[1..], x);
      assert forall y :: y in xs <==> y == xs[0] || y in xs[1..];
      if xs[0] != x then [xs[0]] + rest else rest
  }

  /** The filter works piece by piece, which is what keeping the order means. */
  lemma {:induction false} WithoutAppend<T(!new)>(a: seq<T>, b: seq<T>, x: T)
    ensures Without(a + b, x) == Without(a, x) + Without(b, x)
    decreases |a|
  {
    if |a| == 0 {
      assert a + b == b;
    } else {
      assert (a + b)[0] == a[0] && (a + b)[1..] == a[1..] + b;
      WithoutAppend(a[1..], b, x);
    }
  }

  /** Removing an element that does not occur changes nothing. */
  lemma {:induction false} WithoutAbsent<T(!new)>(xs: seq<T>, x: T)
    requires x !in xs
    ensures Without(xs, x) == xs
    decreases |xs|
  {
    if |xs| > 0 {
      assert x !in xs[1..] by {
        assert forall y :: y in xs[1..] ==> y in xs;
      }
      WithoutAbsent(xs[1..], x);
      assert [xs[0]] + xs[1..] == xs;
    }
  }
}
