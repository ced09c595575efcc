/** A stable sort by an integer key, the behaviour both of JavaScript's
    `Array.prototype.sort` with a numeric comparator (stable since ES2019) and
    of Rust's `Vec::sort`. Stability is stated through `KeyFilter`: the
    elements sharing one key keep their relative order. */
module Sorting {

  ghost predicate SortedBy<T>(s: seq<T>, key: T -> int) {
    forall i, j :: 0 <= i < j < |s| ==> key(s[i]) <= key(s[j])
  }

  /** Inserts x before the first element whose key is not smaller than x's,
      so that x precedes every element of its own key. */
  function Insert<T>(x: T, s: seq<T>, key: T -> int): (r: seq<T>)
    ensures |r| == |s| + 1
    ensures multiset(r) == multiset(s) + multiset{x}
    ensures r[0] == x || (|s| > 0 && r[0] == s[0])
    ensures SortedBy(s, key) ==> SortedBy(r, key)
  {
    if |s| == 0 then [x]
    else if key(x) <= key(s[0]) then [x] + s
    else
      var t := Insert(x, s[1..], key);
      assert s == [s[0]] + s[1..];
      assert SortedBy(s, key) ==> SortedBy([s[0]] + t, key) by {
        if SortedBy(s, key) {
          assert |s| > 1 ==> key(s[0]) <= key(s[1]);
          SortedCons(s[0], t, key);
        }
      }
      [s[0]] + t
  }

  /** An element no larger than the head of a sorted sequence extends it. */
  lemma SortedCons<T>(a: T, t: seq<T>, key: T -> int)
    requires SortedBy(t, key) && (|t| > 0 ==> key(a) <= key(t[0]))
    ensures SortedBy([a] + t, key)
  {
    var r := [a] + t;
    forall i, j | 0 <= i < j < |r|
      ensures key(r[i]) <= key(r[j])
    {
      if i == 0 && j > 1 {
        assert key(t[0]) <= key(t[j - 1]);
      }
    }
  }

  /** Insertion sort: the first element is inserted into the sorted rest. */
  function SortBy<T>(s: seq<T>, key: T -> int): (r: seq<T>)
    ensures |r| == |s|
    ensures multiset(r) == multiset(s)
    ensures SortedBy(r, key)
  {
    if |s| == 0 then []
    else
      assert s == [s[0]] + s[1..];
      Insert(s[0], SortBy(s[1..], key), key)
  }

  /** The elements of s whose key is k, in their order in s. */
  function KeyFilter<T>(s: seq<T>, key: T -> int, k: int): seq<T> {
    if |s| == 0 then []
    else if key(s[0]) == k then [s[0]] + KeyFilter(s[1..], key, k)
    else KeyFilter(s[1..], key, k)
  }

  lemma {:induction false} KeyFilterInsert<T>(x: T, s: seq<T>, key: T -> int, k: int)
    ensures KeyFilter(Insert(x, s, key), key, k)
         == (if key(x) == k then [x] + KeyFilter(s, key, k) else KeyFilter(s, key, k))
  {
    if |s| == 0 {
    } else if key(x) <= key(s[0]) {
      assert ([x] + s)[1..] == s;
    } else {
      var r := Insert(x, s, key);
      assert r[1..] == Insert(x, s[1..], key);
      KeyFilterInsert(x, s[1..], key, k);
    }
  }

  /** The sort is stable: for every key, the elements carrying it appear in
      the output in the same order as in the input. */
  lemma {:induction false} SortByStable<T>(s: seq<T>, key: T -> int, k: int)
    ensures KeyFilter(SortBy(s, key), key, k) == KeyFilter(s, key, k)
  {
    if |s| > 0 {
      SortByStable(s[1..], key, k);
      KeyFilterInsert(s[0], SortBy(s[1..], key), key, k);
    }
  }

  /** Filtering keeps the order of a sequence sorted by another key. */
  lemma {:induction false} KeyFilterSorted<T>(s: seq<T>, key: T -> int, k: int, other: T -> int)
    requires SortedBy(s, other)
    ensures SortedBy(KeyFilter(s, key, k), other)
    ensures multiset(KeyFilter(s, key, k)) <= multiset(s)
  {
    if |s| > 0 {
      assert SortedBy(s[1..], other);
      KeyFilterSorted(s[1..], key, k, other);
      assert s == [s[0]] + s[1..];
      var f := KeyFilter(s[1..], key, k);
      forall e | e in f
        ensures other(s[0]) <= other(e)
      {
        assert e in multiset(s[1..]);
        var j :| 0 <= j < |s[1..]| && s[1..][j] == e;
        assert s[j + 1] == e;
      }
    }
  }

  /** Two elements of s that both carry key k, at positions i < j, appear in
      that order in KeyFilter(s, key, k). */
  lemma {:induction false} KeyFilterPositions<T>(s: seq<T>, key: T -> int, k: int, i: nat, j: nat)
    requires i < j < |s|
    requires key(s[i]) == k && key(s[j]) == k
    ensures exists a, b :: 0 <= a < b < |KeyFilter(s, key, k)|
              && KeyFilter(s, key, k)[a] == s[i] && KeyFilter(s, key, k)[b] == s[j]
  {
    var f := KeyFilter(s, key, k);
    if i == 0 {
      KeyFilterMember(s[1..], key, k, j - 1);
      var b' :| 0 <= b' < |KeyFilter(s[1..], key, k)| && KeyFilter(s[1..], key, k)[b'] == s[j];
      assert f[0] == s[0] && f[b' + 1] == s[j];
    } else {
      KeyFilterPositions(s[1..], key, k, i - 1, j - 1);
      var a', b' :| 0 <= a' < b' < |KeyFilter(s[1..], key, k)|
        && KeyFilter(s[1..], key, k)[a'] == s[i] && KeyFilter(s[1..], key, k)[b'] == s[j];
      if key(s[0]) == k {
        assert f[a' + 1] == s[i] && f[b' + 1] == s[j];
      } else {
        assert f[a'] == s[i] && f[b'] == s[j];
      }
    }
  }

  lemma {:induction false} KeyFilterMember<T>(s: seq<T>, key: T -> int, k: int, j: nat)
    requires j < |s| && key(s[j]) == k
    ensures exists b :: 0 <= b < |KeyFilter(s, key, k)| && KeyFilter(s, key, k)[b] == s[j]
  {
    var f := KeyFilter(s, key, k);
    if j == 0 {
      assert f[0] == s[0];
    } else {
      KeyFilterMember(s[1..], key, k, j - 1);
      var b' :| 0 <= b' < |KeyFilter(s[1..], key, k)| && KeyFilter(s[1..], key, k)[b'] == s[j];
      if key(s[0]) == k {
        assert f[b' + 1] == s[j];
      } else {
        assert f[b'] == s[j];
      }
    }
  }

  /** Ordered by `major`, and by `minor` among elements of equal `major`. */
  ghost predicate LexSortedBy<T>(s: seq<T>, major: T -> int, minor: T -> int) {
    forall i, j :: 0 <= i < j < |s| ==>
      major(s[i]) < major(s[j]) || (major(s[i]) == major(s[j]) && minor(s[i]) <= minor(s[j]))
  }

  /** Sorting stably by `minor` and then stably by `major` orders the
      sequence by `major` first and `minor` second. */
  lemma TwoStableSortsAreLexicographic<T>(s: seq<T>, minor: T -> int, major: T -> int)
    ensures LexSortedBy(SortBy(SortBy(s, minor), major), major, minor)
  {
    var s1 := SortBy(s, minor);
    var s2 := SortBy(s1, major);
    forall i, j | 0 <= i < j < |s2| && major(s2[i]) == major(s2[j])
      ensures minor(s2[i]) <= minor(s2[j])
    {
      var k := major(s2[i]);
      KeyFilterPositions(s2, major, k, i, j);
      var a, b :| 0 <= a < b < |KeyFilter(s2, major, k)|
        && KeyFilter(s2, major, k)[a] == s2[i] && KeyFilter(s2, major, k)[b] == s2[j];
      SortByStable(s1, major, k);
      KeyFilterSorted(s1, major, k, minor);
    }
  }

  function Id(x: int): int { x }

  lemma SortedTail<T>(s: seq<T>, key: T -> int)
    requires |s| > 0 && SortedBy(s, key)
    ensures SortedBy(s[1..], key)
    ensures forall e :: e in s ==> key(s[0]) <= key(e)
  {
  }

  lemma SortedHeadsEqual(a: seq<int>, b: seq<int>)
    requires |a| > 0 && SortedBy(a, Id) && SortedBy(b, Id)
    requires multiset(a) == multiset(b)
    ensures |b| > 0 && a[0] == b[0]
  {
    assert a[0] in multiset(b);
    assert |b| > 0;
    assert b[0] in multiset(a);
    SortedTail(a, Id);
    SortedTail(b, Id);
  }

  /** Two sequences sorted by the identity key with the same elements are equal. */
  lemma {:induction false} SortedPermutationsEqual(a: seq<int>, b: seq<int>)
    requires SortedBy(a, Id) && SortedBy(b, Id)
    requires multiset(a) == multiset(b)
    ensures a == b
  {
    if |a| > 0 {
      SortedHeadsEqual(a, b);
      assert a == [a[0]] + a[1..] && b == [b[0]] + b[1..];
      assert multiset(a) == multiset([a[0]]) + multiset(a[1..]);
      assert multiset(b) == multiset([b[0]]) + multiset(b[1..]);
      assert multiset(a[1..]) == multiset(a) - multiset{a[0]};
      assert multiset(b[1..]) == multiset(b) - multiset{b[0]};
      SortedTail(a, Id);
      SortedTail(b, Id);
      SortedPermutationsEqual(a[1..], b[1..]);
    } else {
      assert |b| == |multiset(b)| == 0;
    }
  }

  /** The keys of the elements, in order. */
  function KeysOf<T>(s: seq<T>, key: T -> int): (r: seq<int>)
    ensures |r| == |s|
    ensures forall i :: 0 <= i < |s| ==> r[i] == key(s[i])
  {
    if |s| == 0 then [] else [key(s[0])] + KeysOf(s[1..], key)
  }

  /** Inserting by key and then taking keys is inserting the key. */
  lemma {:induction false} InsertKeys<T>(x: T, s: seq<T>, key: T -> int)
    ensures KeysOf(Insert(x, s, key), key) == Insert(key(x), KeysOf(s, key), Id)
  {
    if |s| > 0 && key(x) > key(s[0]) {
      var r := Insert(x, s, key);
      assert r[1..] == Insert(x, s[1..], key);
      InsertKeys(x, s[1..], key);
      assert KeysOf(s, key)[1..] == KeysOf(s[1..], key);
    }
  }

  /** Sorting by a key and then taking keys is sorting the keys. */
  lemma {:induction false} SortByKeys<T>(s: seq<T>, key: T -> int)
    ensures KeysOf(SortBy(s, key), key) == SortBy(KeysOf(s, key), Id)
  {
    if |s| > 0 {
      SortByKeys(s[1..], key);
      InsertKeys(s[0], SortBy(s[1..], key), key);
      assert KeysOf(s, key)[1..] == KeysOf(s[1..], key);
    }
  }
}
