/**
 * The two library sorts the loader relies on, by an integer sort key:
 * PHP's `ksort` (keys) and `asort` (values), both stable as of PHP 8.0,
 * written as an insertion sort, and `array_reverse`.
 */
module Sorting {
  import opened OrderedMaps

  ghost predicate Ascending<T>(s: seq<T>, key: T -> int)
  {
    forall i, j :: 0 <= i < j < |s| ==> key(s[i]) <= key(s[j])
  }

  ghost predicate Descending<T>(s: seq<T>, key: T -> int)
  {
    forall i, j :: 0 <= i < j < |s| ==> key(s[i]) >= key(s[j])
  }

  /** Places `x` before the first element whose key is not smaller. */
  function Insert<T>(x: T, s: seq<T>, key: T -> int): (r: seq<T>)
    ensures |r| == |s| + 1
  {
    if s == [] then [x]
    else if key(x) <= key(s[0]) then [x] + s
    else [s[0]] + Insert(x, s[1..], key)
  }

  /** Inserting adds exactly `x`. */
  lemma {:induction false} InsertMultiset<T>(x: T, s: seq<T>, key: T -> int)
    ensures multiset(Insert(x, s, key)) == multiset(s) + multiset{x}
  {
    if s != [] {
      assert s == [s[0]] + s[1..];
      if key(x) > key(s[0]) {
        InsertMultiset(x, s[1..], key);
        assert Insert(x, s, key) == [s[0]] + Insert(x, s[1..], key);
      }
    }
  }

  /** A lower bound on the keys of `s` and of `x` bounds the keys after the insertion. */
  lemma {:induction false} InsertBound<T>(x: T, s: seq<T>, key: T -> int, b: int)
    requires key(x) >= b && forall i :: 0 <= i < |s| ==> key(s[i]) >= b
    ensures forall i :: 0 <= i < |Insert(x, s, key)| ==> key(Insert(x, s, key)[i]) >= b
  {
    if s != [] && key(x) > key(s[0]) {
      var rest := Insert(x, s[1..], key);
      InsertBound(x, s[1..], key, b);
      assert Insert(x, s, key) == [s[0]] + rest;
    } else if s != [] {
      assert Insert(x, s, key) == [x] + s;
    }
  }

  lemma AscendingCons<T>(y: T, t: seq<T>, key: T -> int)
    requires Ascending(t, key) && forall i :: 0 <= i < |t| ==> key(t[i]) >= key(y)
    ensures Ascending([y] + t, key)
  {
    var r := [y] + t;
    forall i, j | 0 <= i < j < |r| ensures key(r[i]) <= key(r[j]) {
      assert r[j] == t[j - 1];
      if i > 0 {
        assert r[i] == t[i - 1];
      }
    }
  }

  /** Into an ascending sequence, inserting keeps the order. */
  lemma {:induction false} InsertAscending<T>(x: T, s: seq<T>, key: T -> int)
    requires Ascending(s, key)
    ensures Ascending(Insert(x, s, key), key)
  {
    if s != [] && key(x) > key(s[0]) {
      var rest := Insert(x, s[1..], key);
      assert Ascending(s[1..], key) && forall i :: 0 <= i < |s| - 1 ==> key(s[1..][i]) >= key(s[0]) by {
        forall i | 0 <= i < |s| - 1 ensures s[1..][i] == s[i + 1] { }
      }
      InsertAscending(x, s[1..], key);
      InsertBound(x, s[1..], key, key(s[0]));
      AscendingCons(s[0], rest, key);
      assert Insert(x, s, key) == [s[0]] + rest;
    } else if s != [] {
      AscendingCons(x, s, key);
      assert Insert(x, s, key) == [x] + s;
    }
  }

  /** A stable ascending sort by `key`. */
  function SortBy<T>(s: seq<T>, key: T -> int): (r: seq<T>)
    ensures multiset(r) == multiset(s)
    ensures |r| == |s|
    ensures Ascending(r, key)
  {
    if s == [] then []
    else
      assert s == [s[0]] + s[1..];
      var rest := SortBy(s[1..], key);
      InsertMultiset(s[0], rest, key);
      InsertAscending(s[0], rest, key);
      Insert(s[0], rest, key)
  }

  /** PHP's `array_reverse`. */
  function Reverse<T>(s: seq<T>): (r: seq<T>)
    ensures |r| == |s|
    ensures forall i :: 0 <= i < |s| ==> r[i] == s[|s| - 1 - i]
  {
    if s == [] then [] else Reverse(s[1..]) + [s[0]]
  }

  lemma ReverseMultiset<T>(s: seq<T>)
    ensures multiset(Reverse(s)) == multiset(s)
  {
    if s != [] {
      assert s == [s[0]] + s[1..];
      ReverseMultiset(s[1..]);
    }
  }

  /** Descending by `key`; entries with equal keys end up in reverse of their original order. */
  function SortDescending<T>(s: seq<T>, key: T -> int): (r: seq<T>)
    ensures multiset(r) == multiset(s)
    ensures |r| == |s|
    ensures Descending(r, key)
  {
    var up := SortBy(s, key);
    ReverseMultiset(up);
    Reverse(up)
  }

  /** The elements whose key equals `n`, in order. */
  function Filter<T>(s: seq<T>, key: T -> int, n: int): seq<T>
  {
    if s == [] then []
    else (if key(s[0]) == n then [s[0]] else []) + Filter(s[1..], key, n)
  }

  lemma {:induction false} FilterAppend<T>(a: seq<T>, b: seq<T>, key: T -> int, n: int)
    ensures Filter(a + b, key, n) == Filter(a, key, n) + Filter(b, key, n)
  {
    if a != [] {
      assert (a + b)[1..] == a[1..] + b;
      FilterAppend(a[1..], b, key, n);
    } else {
      assert a + b == b;
    }
  }

  lemma {:induction false} InsertFilter<T>(x: T, s: seq<T>, key: T -> int, n: int)
    ensures Filter(Insert(x, s, key), key, n) == (if key(x) == n then [x] else []) + Filter(s, key, n)
    decreases |s|, 1
  {
    var r := Insert(x, s, key);
    var fx := if key(x) == n then [x] else [];
    if s == [] {
      assert r[1..] == [];
    } else if key(x) <= key(s[0]) {
      assert r[1..] == s;
    } else {
      InsertFilterPast(x, s, key, n);
    }
  }

  lemma {:induction false} InsertFilterPast<T>(x: T, s: seq<T>, key: T -> int, n: int)
    requires s != [] && key(x) > key(s[0])
    ensures Filter(Insert(x, s, key), key, n) == (if key(x) == n then [x] else []) + Filter(s, key, n)
    decreases |s|, 0
  {
    var rest := Insert(x, s[1..], key);
    InsertFilter(x, s[1..], key, n);
    FilterCons(s[0], rest, key, n);
    assert Insert(x, s, key) == [s[0]] + rest;
    var tail := Filter(s[1..], key, n);
    if key(x) == n {
      assert Filter([s[0]] + rest, key, n) == [x] + tail;
    } else {
      assert Filter([s[0]] + rest, key, n) == Filter(s, key, n);
    }
  }

  lemma FilterCons<T>(y: T, t: seq<T>, key: T -> int, n: int)
    ensures Filter([y] + t, key, n) == (if key(y) == n then [y] else []) + Filter(t, key, n)
  {
    assert ([y] + t)[1..] == t;
  }

  /** Stability: among equal keys the sort keeps the original order. */
  lemma {:induction false} SortByFilter<T>(s: seq<T>, key: T -> int, n: int)
    ensures Filter(SortBy(s, key), key, n) == Filter(s, key, n)
  {
    if s != [] {
      SortByFilter(s[1..], key, n);
      InsertFilter(s[0], SortBy(s[1..], key), key, n);
    }
  }

  lemma {:induction false} FilterReverse<T>(s: seq<T>, key: T -> int, n: int)
    ensures Filter(Reverse(s), key, n) == Reverse(Filter(s, key, n))
  {
    if s != [] {
      var f := Filter(s[1..], key, n);
      FilterReverse(s[1..], key, n);
      assert Reverse(s) == Reverse(s[1..]) + [s[0]];
      FilterAppend(Reverse(s[1..]), [s[0]], key, n);
      FilterCons(s[0], [], key, n);
      assert [s[0]] + [] == [s[0]];
      if key(s[0]) == n {
        ReverseCons(s[0], f);
      } else {
        assert Filter(s, key, n) == f;
      }
    }
  }

  lemma ReverseCons<T>(y: T, t: seq<T>)
    ensures Reverse([y] + t) == Reverse(t) + [y]
  {
    assert ([y] + t)[1..] == t;
  }

  /** Ties in a descending sort come out in reverse of their input order, so the sort is not stable. */
  lemma SortDescendingTies<T>(s: seq<T>, key: T -> int, n: int)
    ensures Filter(SortDescending(s, key), key, n) == Reverse(Filter(s, key, n))
  {
    FilterReverse(SortBy(s, key), key, n);
    SortByFilter(s, key, n);
  }

  // ---------------------------------------------------------------------
  // A permutation of an OMap with distinct keys still has distinct keys.

  lemma {:induction false} DistinctCountsOnce<K, V>(a: OMap<K, V>, x: (K, V))
    requires DistinctKeys(a)
    ensures multiset(a)[x] <= 1
  {
    if a != [] {
      assert a == [a[0]] + a[1..];
      DistinctCountsOnce(a[1..], x);
      if x == a[0] {
        assert x !in a[1..];
      }
    }
  }

  lemma PermutationKeepsDistinct<K, V>(a: OMap<K, V>, b: OMap<K, V>)
    requires multiset(a) == multiset(b) && DistinctKeys(a)
    ensures DistinctKeys(b)
  {
    forall i, j | 0 <= i < j < |b| ensures b[i].0 != b[j].0 {
      if b[i].0 == b[j].0 {
        assert b[i] in multiset(a) && b[j] in multiset(a);
        var p :| 0 <= p < |a| && a[p] == b[i];
        var q :| 0 <= q < |a| && a[q] == b[j];
        if p == q {
          assert b == b[..j] + b[j..];
          assert b[i] in b[..j] && b[j] in b[j..];
          assert multiset(b)[b[i]] >= 2;
          DistinctCountsOnce(a, b[i]);
        }
      }
    }
  }
}
