/**
 * A stable sort by an integer key. `Collections.sort` with a comparator on an
 * integer attribute is a stable merge sort; its result is the unique ordering
 * that is non-decreasing in the key and keeps elements with equal keys in
 * their original relative order, which is what `SortBy` computes by insertion.
 */
module StableSort {

  /** The elements of `s` whose key is `k`, in their order in `s`. */
  function WithKey<T>(s: seq<T>, key: T -> int, k: int): seq<T>
  {
    if s == [] then [] else (if key(s[0]) == k then [s[0]] else []) + WithKey(s[1..], key, k)
  }

  predicate SortedBy<T>(s: seq<T>, key: T -> int)
  {
    forall i, j :: 0 <= i < j < |s| ==> key(s[i]) <= key(s[j])
  }

  /** Inserts `x` in front of the first element whose key is not smaller than its own. */
  function Insert<T>(x: T, s: seq<T>, key: T -> int): seq<T>
  {
    if s == [] then [x]
    else if key(x) <= key(s[0]) then [x] + s
    else [s[0]] + Insert(x, s[1..], key)
  }

  function SortBy<T>(s: seq<T>, key: T -> int): seq<T>
  {
    if s == [] then [] else Insert(s[0], SortBy(s[1..], key), key)
  }

  lemma {:induction false} InsertSorted<T>(x: T, s: seq<T>, key: T -> int)
    requires SortedBy(s, key)
    ensures SortedBy(Insert(x, s, key), key)
    ensures multiset(Insert(x, s, key)) == multiset(s) + multiset{x}
    ensures |Insert(x, s, key)| == |s| + 1
  {
    if s == [] {
    } else if key(x) <= key(s[0]) {
    } else {
      InsertSorted(x, s[1..], key);
      var r := Insert(x, s[1..], key);
      assert Insert(x, s, key) == [s[0]] + r;
      assert s == [s[0]] + s[1..];
      HeadBelowRest(x, s, r, key);
    }
  }

  /** Every element of `r`, a rearrangement of `x` and the tail of `s`, has a key at least that of the head of `s`. */
  lemma HeadBelowRest<T>(x: T, s: seq<T>, r: seq<T>, key: T -> int)
    requires SortedBy(s, key) && s != [] && key(s[0]) < key(x)
    requires multiset(r) == multiset(s[1..]) + multiset{x}
    ensures forall i :: 0 <= i < |r| ==> key(s[0]) <= key(r[i])
  {
    forall i | 0 <= i < |r| ensures key(s[0]) <= key(r[i]) {
      assert r[i] in multiset(r);
      if r[i] != x {
        assert r[i] in s[1..];
        var j :| 0 <= j < |s[1..]| && s[1..][j] == r[i];
        assert s[j + 1] == r[i];
      }
    }
  }

  lemma {:induction false} InsertWithKey<T>(x: T, s: seq<T>, key: T -> int, k: int)
    ensures WithKey(Insert(x, s, key), key, k) == (if key(x) == k then [x] else []) + WithKey(s, key, k)
  {
    if s == [] {
      assert WithKey([x], key, k) == (if key(x) == k then [x] else []) + WithKey([x][1..], key, k);
    } else if key(x) <= key(s[0]) {
      assert ([x] + s)[1..] == s;
    } else {
      InsertWithKey(x, s[1..], key, k);
      assert ([s[0]] + Insert(x, s[1..], key))[1..] == Insert(x, s[1..], key);
      if key(x) == k {
        assert key(s[0]) != k;
      }
    }
  }

  /** The sorted result is a permutation of the input and is non-decreasing in the key. */
  lemma {:induction false} SortBySortsAndPermutes<T>(s: seq<T>, key: T -> int)
    ensures SortedBy(SortBy(s, key), key)
    ensures multiset(SortBy(s, key)) == multiset(s)
    ensures |SortBy(s, key)| == |s|
  {
    if s != [] {
      SortBySortsAndPermutes(s[1..], key);
      InsertSorted(s[0], SortBy(s[1..], key), key);
      assert s == [s[0]] + s[1..];
    }
  }

  /** Stability: for every key, the elements carrying it keep their relative order. */
  lemma {:induction false} SortByIsStable<T>(s: seq<T>, key: T -> int, k: int)
    ensures WithKey(SortBy(s, key), key, k) == WithKey(s, key, k)
  {
    if s != [] {
      SortByIsStable(s[1..], key, k);
      InsertWithKey(s[0], SortBy(s[1..], key), key, k);
    }
  }
}
