/** Cardinality facts about finite sets of vertex indices, used by the
    matching state (a mapped set can never outgrow the vertex range, and a
    mapped set as large as the range is the whole range). */
module SetFacts {

  /** The vertex indices 0 .. k-1. */
  function Range(k: int): set<int>
    decreases k
  {
    if k <= 0 then {} else Range(k - 1) + {k - 1}
  }

  lemma {:induction false} RangeSize(k: nat)
    ensures |Range(k)| == k
    ensures forall x :: x in Range(k) <==> 0 <= x < k
  {
    if k > 0 {
      RangeSize(k - 1);
    }
  }

  lemma SubsetSize(a: set<int>, b: set<int>)
    requires a <= b
    ensures |a| <= |b|
  {
    assert b == a + (b - a);
  }

  /** A set of indices below k has at most k elements. */
  lemma BoundedSize(s: set<int>, k: nat)
    requires forall x :: x in s ==> 0 <= x < k
    ensures |s| <= k
  {
    RangeSize(k);
    assert (forall x :: x in s ==> x in Range(k)) ==> s <= Range(k);
    SubsetSize(s, Range(k));
  }

  /** A set of indices below k that has k elements is the whole range. */
  lemma FullIsRange(s: set<int>, k: nat)
    requires forall x :: x in s ==> 0 <= x < k
    requires |s| >= k
    ensures forall x :: 0 <= x < k ==> x in s
  {
    forall x | 0 <= x < k
      ensures x in s
    {
      if x !in s {
        BoundedSizeMissing(s, k, x);
      }
    }
  }

  /** A set containing every index below k has at least k elements. */
  lemma CoverSize(s: set<int>, k: nat)
    ensures (forall x :: 0 <= x < k ==> x in s) ==> |s| >= k
  {
    if forall x :: 0 <= x < k ==> x in s {
      RangeSize(k);
      assert (forall x :: x in Range(k) ==> x in s) ==> Range(k) <= s;
      SubsetSize(Range(k), s);
    }
  }

  /** A set of indices below k that misses index a has fewer than k elements. */
  lemma BoundedSizeMissing(s: set<int>, k: nat, a: int)
    requires 0 <= a < k
    requires forall x :: x in s ==> 0 <= x < k && x != a
    ensures |s| < k
  {
    RangeSize(k);
    assert (forall x :: x in s ==> x in Range(k) - {a}) ==> s <= Range(k) - {a};
    SubsetSize(s, Range(k) - {a});
  }

  /** A non-empty set has an element to pick. */
  lemma NonEmptyHasElement(s: set<int>)
    requires s != {}
    ensures exists x :: x in s
  {
    assert (forall x :: x !in s) ==> s == {};
  }

  /** Every non-empty finite set of integers has a least element. */
  lemma {:induction false} MinExists(s: set<int>)
    requires s != {}
    ensures exists x :: x in s && forall y :: y in s ==> x <= y
  {
    NonEmptyHasElement(s);
    var z :| z in s;
    var rest := s - {z};
    if rest == {} {
      forall y | y in s
        ensures z <= y
      {
        assert y == z || y in rest;
      }
    } else {
      MinExists(rest);
      var x :| x in rest && forall y :: y in rest ==> x <= y;
      var least := if z < x then z else x;
      forall y | y in s
        ensures least <= y
      {
        if y != z {
          assert y in rest;
        }
      }
      assert least in s;
    }
  }
}
