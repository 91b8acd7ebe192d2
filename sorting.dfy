/**
 * Ordering of query results (`orderBy` chains): rows are sorted by a pair of
 * integers compared lexicographically.
 */
module Sorting {
  datatype Key = Key(major: int, minor: int)

  predicate KeyLe(a: Key, b: Key)
  {
    a.major < b.major || (a.major == b.major && a.minor <= b.minor)
  }

  predicate SortedBy<T>(s: seq<T>, key: T -> Key)
  {
    forall i, j :: 0 <= i < j < |s| ==> KeyLe(key(s[i]), key(s[j]))
  }

  /** Insert `x` before the first element whose key is larger. */
  function Insert<T>(x: T, s: seq<T>, key: T -> Key): (r: seq<T>)
    ensures multiset(r) == multiset(s) + multiset{x}
    ensures |r| == |s| + 1 && (r[0] == x || (s != [] && r[0] == s[0]))
  {
    if s == [] then [x]
    else if KeyLe(key(x), key(s[0])) then [x] + s
    else
      assert s == [s[0]] + s[1..];
      [s[0]] + Insert(x, s[1..], key)
  }

  /** Inserting into a sorted sequence keeps it sorted. */
  lemma {:induction false} InsertSorted<T>(x: T, s: seq<T>, key: T -> Key)
    requires SortedBy(s, key)
    ensures SortedBy(Insert(x, s, key), key)
  {
    if s != [] && !KeyLe(key(x), key(s[0])) {
      var t := Insert(x, s[1..], key);
      InsertSorted(x, s[1..], key);
      assert KeyLe(key(s[0]), key(t[0]));
      var r := [s[0]] + t;
      forall i, j | 0 <= i < j < |r|
        ensures KeyLe(key(r[i]), key(r[j]))
      {
        if i == 0 && j > 1 {
          assert r[j] == t[j - 1] && KeyLe(key(t[0]), key(t[j - 1]));
        }
      }
    }
  }

  /** The rows of `s` in key order; ties keep their relative order. */
  function SortBy<T>(s: seq<T>, key: T -> Key): seq<T>
  {
    if s == [] then [] else Insert(s[0], SortBy(s[1..], key), key)
  }

  /** `SortBy` returns a sorted permutation of its input. */
  lemma {:induction false} SortBySortedPermutation<T>(s: seq<T>, key: T -> Key)
    ensures SortedBy(SortBy(s, key), key)
    ensures multiset(SortBy(s, key)) == multiset(s)
  {
    if s != [] {
      SortBySortedPermutation(s[1..], key);
      InsertSorted(s[0], SortBy(s[1..], key), key);
      assert s == [s[0]] + s[1..];
    }
  }

  lemma SortByLength<T>(s: seq<T>, key: T -> Key)
    ensures |SortBy(s, key)| == |s|
  {
    SortBySortedPermutation(s, key);
    assert |multiset(SortBy(s, key))| == |multiset(s)|;
  }

  /** The first `n` rows, as a query's `limit(n)`. */
  function Take<T>(s: seq<T>, n: nat): (r: seq<T>)
    ensures |r| <= n && |r| <= |s|
    ensures r == s[..|r|]
    ensures |s| >= n ==> |r| == n
  {
    if |s| <= n then s else s[..n]
  }

  /** The rows `limit(n)` drops from a sorted result are ordered after the last row it keeps. */
  lemma TakeSortedKeepsFirst<T>(s: seq<T>, n: nat, key: T -> Key)
    requires SortedBy(s, key) && n > 0
    ensures SortedBy(Take(s, n), key)
    ensures forall x :: x in multiset(s) - multiset(Take(s, n)) ==>
              |Take(s, n)| == n && KeyLe(key(Take(s, n)[n - 1]), key(x))
  {
    if |s| > n {
      assert s == s[..n] + s[n..];
      assert multiset(s) - multiset(s[..n]) == multiset(s[n..]);
      forall x | x in multiset(s[n..])
        ensures KeyLe(key(s[n - 1]), key(x))
      {
        var j :| 0 <= j < |s[n..]| && s[n..][j] == x;
        assert s[n + j] == x;
      }
    }
  }
}
