/** A stable sort by an integer key, the behaviour lodash `sortBy` promises: the result is
    ordered by the key, is a permutation of the input, and keeps the input order among
    elements whose keys are equal. */
module Sorting {

  ghost predicate SortedBy<T>(s: seq<T>, key: T -> int)
  {
    forall i, j :: 0 <= i < j < |s| ==> key(s[i]) <= key(s[j])
  }

  /** Inserts `x` after every element whose key is at most `key(x)`. */
  function Insert<T>(sorted: seq<T>, x: T, key: T -> int): seq<T>
    requires SortedBy(sorted, key)
    decreases |sorted|
  {
    if sorted == [] || key(sorted[|sorted| - 1]) <= key(x) then sorted + [x]
    else Insert(sorted[..|sorted| - 1], x, key) + [sorted[|sorted| - 1]]
  }

  /** Inserting into a sorted sequence adds `x` to its elements and keeps it sorted. */
  lemma {:induction false} InsertSorted<T>(sorted: seq<T>, x: T, key: T -> int)
    requires SortedBy(sorted, key)
    ensures |Insert(sorted, x, key)| == |sorted| + 1
    ensures multiset(Insert(sorted, x, key)) == multiset(sorted) + multiset{x}
    ensures SortedBy(Insert(sorted, x, key), key)
    decreases |sorted|
  {
    if sorted == [] || key(sorted[|sorted| - 1]) <= key(x) {
      assert multiset(sorted + [x]) == multiset(sorted) + multiset{x};
    } else {
      var init, y := sorted[..|sorted| - 1], sorted[|sorted| - 1];
      assert sorted == init + [y];
      var rest := Insert(init, x, key);
      InsertSorted(init, x, key);
      forall i | 0 <= i < |rest| ensures key(rest[i]) <= key(y) {
        assert rest[i] in multiset(rest);
        if rest[i] != x {
          assert rest[i] in multiset(init);
          var m :| 0 <= m < |init| && init[m] == rest[i];
          assert sorted[m] == rest[i];
        }
      }
      assert Insert(sorted, x, key) == rest + [y];
      assert multiset(rest + [y]) == multiset(rest) + multiset{y};
      assert multiset(sorted) == multiset(init) + multiset{y};
    }
  }

  /** Insertion sort, inserting the elements from left to right. */
  function SortBy<T>(s: seq<T>, key: T -> int): (r: seq<T>)
    ensures |r| == |s|
    ensures multiset(r) == multiset(s)
    ensures SortedBy(r, key)
  {
    if s == [] then []
    else
      var init, x := s[..|s| - 1], s[|s| - 1];
      assert s == init + [x];
      InsertSorted(SortBy(init, key), x, key);
      Insert(SortBy(init, key), x, key)
  }

  /** The elements of `s` whose key is `k`, in their order in `s`. */
  function KeyClass<T>(s: seq<T>, key: T -> int, k: int): seq<T>
  {
    if s == [] then []
    else KeyClass(s[..|s| - 1], key, k) + (if key(s[|s| - 1]) == k then [s[|s| - 1]] else [])
  }

  lemma {:induction false} InsertStable<T>(sorted: seq<T>, x: T, key: T -> int, k: int)
    requires SortedBy(sorted, key)
    ensures KeyClass(Insert(sorted, x, key), key, k)
         == KeyClass(sorted, key, k) + (if key(x) == k then [x] else [])
    decreases |sorted|
  {
    if sorted == [] || key(sorted[|sorted| - 1]) <= key(x) {
      var r := sorted + [x];
      assert r[..|r| - 1] == sorted;
    } else {
      var init, y := sorted[..|sorted| - 1], sorted[|sorted| - 1];
      var rest := Insert(init, x, key);
      var r := rest + [y];
      assert Insert(sorted, x, key) == r;
      assert r[..|r| - 1] == rest && r[|r| - 1] == y;
      InsertStable(init, x, key, k);
      var xs, ys := (if key(x) == k then [x] else []), (if key(y) == k then [y] else []);
      assert KeyClass(r, key, k) == KeyClass(rest, key, k) + ys;
      assert KeyClass(sorted, key, k) == KeyClass(init, key, k) + ys;
      assert xs == [] || ys == [];
    }
  }

  /** Stability: sorting keeps every class of equal keys in its original order. */
  lemma {:induction false} SortStable<T>(s: seq<T>, key: T -> int, k: int)
    ensures KeyClass(SortBy(s, key), key, k) == KeyClass(s, key, k)
  {
    if s != [] {
      SortStable(s[..|s| - 1], key, k);
      InsertStable(SortBy(s[..|s| - 1], key), s[|s| - 1], key, k);
    }
  }

  /** A prefix of a sorted sequence is sorted, and no element left out of it has a smaller key
      than an element in it. */
  lemma PrefixOfSorted<T>(s: seq<T>, key: T -> int, m: nat)
    requires SortedBy(s, key) && m <= |s|
    ensures SortedBy(s[..m], key)
    ensures multiset(s[..m]) <= multiset(s)
    ensures forall q :: q in multiset(s) - multiset(s[..m]) ==> forall k :: 0 <= k < m ==> key(s[k]) <= key(q)
  {
    var r, rest := s[..m], s[m..];
    assert s == r + rest;
    assert multiset(s) == multiset(r) + multiset(rest);
    forall q | q in multiset(s) - multiset(r) ensures forall k :: 0 <= k < m ==> key(s[k]) <= key(q) {
      assert q in multiset(rest);
      var j :| 0 <= j < |rest| && rest[j] == q;
      assert s[m + j] == q;
    }
  }
}
