/** The distance between two lists of location ids, shared by both
    versions of day 1 (day_1/solution.js and rust/day_1/src/main.rs): pair
    the smallest with the smallest, the second smallest with the second
    smallest, and so on, and add up how far apart each pair is. */
module ListDistance {
  import opened Sorting

  function Abs(x: int): nat {
    if x < 0 then -x else x
  }

  /** The sum of |a[i] - b[i]| over the positions of two lists of equal
      length. */
  function Distance(a: seq<int>, b: seq<int>): nat
    requires |a| == |b|
  {
    if |a| == 0 then 0
    else Distance(a[..|a| - 1], b[..|b| - 1]) + Abs(a[|a| - 1] - b[|b| - 1])
  }

  lemma {:induction false} DistanceSymmetric(a: seq<int>, b: seq<int>)
    requires |a| == |b|
    ensures Distance(a, b) == Distance(b, a)
  {
    if |a| > 0 {
      DistanceSymmetric(a[..|a| - 1], b[..|b| - 1]);
    }
  }

  /** A prefix of the pairs is no farther apart than all of them. */
  lemma {:induction false} DistancePrefix(a: seq<int>, b: seq<int>, j: nat)
    requires |a| == |b| && j <= |a|
    ensures Distance(a[..j], b[..j]) <= Distance(a, b)
  {
    if j < |a| {
      var n := |a| - 1;
      DistancePrefix(a[..n], b[..n], j);
      assert a[..n][..j] == a[..j] && b[..n][..j] == b[..j];
    } else {
      assert a[..j] == a && b[..j] == b;
    }
  }

  /** One more pair adds its gap. */
  lemma DistanceStep(a: seq<int>, b: seq<int>, j: nat)
    requires |a| == |b| && j < |a|
    ensures Distance(a[..j + 1], b[..j + 1]) == Distance(a[..j], b[..j]) + Abs(a[j] - b[j])
  {
    assert a[..j + 1][..j] == a[..j] && b[..j + 1][..j] == b[..j];
  }

  /** Two lists are at distance 0 exactly when they are equal. */
  lemma {:induction false} DistanceZero(a: seq<int>, b: seq<int>)
    requires |a| == |b|
    ensures Distance(a, b) == 0 <==> a == b
  {
    if |a| > 0 {
      var n := |a| - 1;
      DistanceZero(a[..n], b[..n]);
      assert a == a[..n] + [a[n]] && b == b[..n] + [b[n]];
      if a == b {
        assert a[..n] == b[..n];
      }
    }
  }

  /** The puzzle's total distance: both lists sorted ascending, then paired
      up position by position. */
  function SortedDistance(a: seq<int>, b: seq<int>): nat
    requires |a| == |b|
  {
    Distance(SortBy(a, Id), SortBy(b, Id))
  }

  /** Sorting settles the order: two lists with the same elements sort to
      the same list. */
  lemma SortSettles(a: seq<int>, a2: seq<int>)
    requires multiset(a) == multiset(a2)
    ensures |a| == |a2| && SortBy(a, Id) == SortBy(a2, Id)
  {
    assert |a| == |multiset(a)| == |multiset(a2)| == |a2|;
    SortedPermutationsEqual(SortBy(a, Id), SortBy(a2, Id));
  }

  /** The total distance does not depend on the order the lists come in. */
  lemma SortedDistanceOrderFree(a: seq<int>, a2: seq<int>, b: seq<int>, b2: seq<int>)
    requires |a| == |b| && multiset(a) == multiset(a2) && multiset(b) == multiset(b2)
    ensures |a2| == |b2| && SortedDistance(a2, b2) == SortedDistance(a, b)
  {
    SortSettles(a, a2);
    SortSettles(b, b2);
  }

  lemma SortedDistanceSymmetric(a: seq<int>, b: seq<int>)
    requires |a| == |b|
    ensures SortedDistance(a, b) == SortedDistance(b, a)
  {
    DistanceSymmetric(SortBy(a, Id), SortBy(b, Id));
  }

  /** The total distance is 0 exactly when the two lists hold the same
      numbers, each as often. */
  lemma SortedDistanceZero(a: seq<int>, b: seq<int>)
    requires |a| == |b|
    ensures SortedDistance(a, b) == 0 <==> multiset(a) == multiset(b)
  {
    DistanceZero(SortBy(a, Id), SortBy(b, Id));
    if multiset(a) == multiset(b) {
      SortSettles(a, b);
    }
  }
}
