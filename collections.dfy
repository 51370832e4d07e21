/**
 * Small facts about sequences and finite sets shared by the Yahtzee planner:
 * powers, the integer range `range(lo, hi)`, the set of elements of a
 * sequence, distinctness, sortedness, and how big the image of a finite set is.
 */
module Collections {

  /** b raised to the e-th power, on naturals. */
  function Pow(b: nat, e: nat): (r: nat)
    ensures b >= 1 ==> r >= 1
  {
    if e == 0 then 1 else b * Pow(b, e - 1)
  }

  /** The integers lo, lo + 1, ..., hi - 1 (empty when hi <= lo), like `range(lo, hi)`. */
  function Range(lo: int, hi: int): (r: seq<int>)
    ensures |r| == if hi <= lo then 0 else hi - lo
    ensures forall x :: x in r <==> lo <= x < hi
    ensures Distinct(r)
    decreases hi - lo
  {
    if hi <= lo then []
    else
      var rest := Range(lo + 1, hi);
      assert forall j :: 0 <= j < |rest| ==> rest[j] in rest;
      [lo] + rest
  }

  /** The set of values occurring in `s`. */
  function Elems<T>(s: seq<T>): set<T>
  {
    set x | x in s
  }

  /** Some element of a non-empty set; sums and images over a set take its elements one at a time. */
  ghost function Pick<T>(s: set<T>): (x: T)
    requires s != {}
    ensures x in s
  {
    var x :| x in s; x
  }

  /** No value occurs twice in `s`. */
  predicate Distinct<T(==)>(s: seq<T>)
  {
    forall i, j :: 0 <= i < j < |s| ==> s[i] != s[j]
  }

  /** Appending an element adds it to the set of elements, and keeps a sequence
      without repetitions so when the element is new. */
  lemma ElemsSnoc<T>(s: seq<T>, x: T)
    ensures Elems(s + [x]) == Elems(s) + {x}
    ensures Distinct(s) && x !in Elems(s) ==> Distinct(s + [x])
  {
    assert forall i :: 0 <= i < |s| ==> (s + [x])[i] == s[i];
  }

  /** `s` is in non-decreasing order. */
  predicate IsSorted(s: seq<int>)
  {
    forall i, j :: 0 <= i < j < |s| ==> s[i] <= s[j]
  }

  /** One more row of k elements adds k. */
  lemma MulSucc(m: nat, n: nat, k: int)
    requires m == n + 1
    ensures m * k == n * k + k
  {
  }

  /** A sequence without repetitions has as many distinct values as elements. */
  lemma {:induction false} DistinctElemsCard<T>(s: seq<T>)
    requires Distinct(s)
    ensures |Elems(s)| == |s|
  {
    if s != [] {
      DistinctElemsCard(s[1..]);
      assert Elems(s) == Elems(s[1..]) + {s[0]};
      assert s[0] !in Elems(s[1..]);
    }
  }
  /** A union is no bigger than its parts together, and exactly as big when they are disjoint. */
  lemma {:induction false} UnionCard<T>(a: set<T>, b: set<T>)
    ensures |a + b| <= |a| + |b|
    ensures a !! b ==> |a + b| == |a| + |b|
  {
    if a != {} {
      var x :| x in a;
      UnionCard(a - {x}, b);
      if x in b {
        assert a + b == (a - {x}) + b;
      } else {
        assert a + b == ((a - {x}) + b) + {x};
      }
    } else {
      assert a + b == b;
    }
  }

  /** Every value of a sub-multiset of `s` occurs at most as often, so it is no longer. */
  lemma {:induction false} SubMultisetLength(t: seq<int>, s: seq<int>)
    requires multiset(t) <= multiset(s)
    ensures |t| <= |s|
  {
    if t != [] {
      var x := t[0];
      assert x in multiset(s);
      var k :| 0 <= k < |s| && s[k] == x;
      var rest := s[..k] + s[k + 1..];
      assert s == s[..k] + [x] + s[k + 1..];
      assert multiset(s) == multiset(rest) + multiset{x};
      assert t == [x] + t[1..];
      assert multiset(t) == multiset(t[1..]) + multiset{x};
      forall y ensures multiset(t[1..])[y] <= multiset(rest)[y] {
        assert multiset(t)[y] <= multiset(s)[y];
      }
      SubMultisetLength(t[1..], rest);
    }
  }
}
