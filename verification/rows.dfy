/**
 * Sequences of records as the backend's tables and query results hold them:
 * filtering by a condition, key uniqueness, and ordering by a numeric key.
 */
module Rows {

  /** `[x for x in s if p(x)]`. */
  function Filter<T(!new)>(s: seq<T>, p: T -> bool): (r: seq<T>)
    ensures |r| <= |s|
    ensures forall x :: x in r <==> x in s && p(x)
  {
    if |s| == 0 then [] else (if p(s[0]) then [s[0]] else []) + Filter(s[1..], p)
  }

  /** Every row is kept when every row meets the condition. */
  lemma {:induction false} FilterAll<T(!new)>(s: seq<T>, p: T -> bool)
    ensures (forall k :: 0 <= k < |s| ==> p(s[k])) ==> Filter(s, p) == s
  {
    if |s| > 0 && forall k :: 0 <= k < |s| ==> p(s[k]) {
      assert forall k :: 0 <= k < |s[1..]| ==> s[1..][k] == s[k + 1];
      FilterAll(s[1..], p);
      assert [s[0]] + s[1..] == s;
    }
  }

  /** Every row of a selection meets its condition. */
  lemma FilterSatisfies<T(!new)>(s: seq<T>, p: T -> bool)
    ensures forall k :: 0 <= k < |Filter(s, p)| ==> p(Filter(s, p)[k])
  {
    var r := Filter(s, p);
    forall k | 0 <= k < |r| ensures p(r[k]) {
      assert r[k] in r;
    }
  }

  /** `s.some(p)`: some row meets the condition. */
  function Any<T>(s: seq<T>, p: T -> bool): (r: bool)
    ensures r <==> exists k :: 0 <= k < |s| && p(s[k])
  {
    if |s| == 0 then false
    else
      var r := Any(s[1..], p);
      assert r ==> exists k :: 0 <= k < |s| && p(s[k]) by {
        if r {
          var k :| 0 <= k < |s[1..]| && p(s[1..][k]);
          assert s[k + 1] == s[1..][k];
        }
      }
      assert (exists k :: 1 <= k < |s| && p(s[k])) ==> r by {
        if exists k :: 1 <= k < |s| && p(s[k]) {
          var k :| 1 <= k < |s| && p(s[k]);
          assert s[1..][k - 1] == s[k];
        }
      }
      p(s[0]) || r
  }

  /** `s` lists elements of `t` in the order they appear there. */
  predicate IsSubsequence<T(==)>(s: seq<T>, t: seq<T>)
    decreases |t|
  {
    if |s| == 0 then true
    else if |t| == 0 then false
    else (s[0] == t[0] && IsSubsequence(s[1..], t[1..])) || IsSubsequence(s, t[1..])
  }

  /** Filtering keeps the rows' order. */
  lemma {:induction false} FilterKeepsOrder<T(!new)>(s: seq<T>, p: T -> bool)
    ensures IsSubsequence(Filter(s, p), s)
  {
    if |s| > 0 {
      FilterKeepsOrder(s[1..], p);
      var rest := Filter(s[1..], p);
      if p(s[0]) {
        assert Filter(s, p) == [s[0]] + rest;
        assert ([s[0]] + rest)[1..] == rest;
      } else {
        assert Filter(s, p) == rest;
      }
    }
  }

  /** The first rows of an order-keeping selection keep the order too. */
  lemma {:induction false} PrefixKeepsOrder<T>(s: seq<T>, t: seq<T>, n: nat)
    requires IsSubsequence(s, t) && n <= |s|
    ensures IsSubsequence(s[..n], t)
    decreases |t|
  {
    if n > 0 && |t| > 0 {
      if s[0] == t[0] && IsSubsequence(s[1..], t[1..]) {
        PrefixKeepsOrder(s[1..], t[1..], n - 1);
        assert s[..n][1..] == s[1..][..n - 1];
      } else {
        PrefixKeepsOrder(s, t[1..], n);
      }
    }
  }

  /** No two rows share a key. */
  predicate KeysDistinct<T, K(==)>(s: seq<T>, key: T -> K) {
    forall i, j :: 0 <= i < j < |s| ==> key(s[i]) != key(s[j])
  }

  /** Keeping some rows of a table whose key is unique keeps it unique. */
  lemma {:induction false} FilterKeysDistinct<T(!new), K>(s: seq<T>, p: T -> bool, key: T -> K)
    requires KeysDistinct(s, key)
    ensures KeysDistinct(Filter(s, p), key)
  {
    if |s| > 0 {
      var rest := Filter(s[1..], p);
      assert KeysDistinct(s[1..], key) by {
        forall i, j | 0 <= i < j < |s[1..]| ensures key(s[1..][i]) != key(s[1..][j]) {
          assert s[1..][i] == s[i + 1] && s[1..][j] == s[j + 1];
        }
      }
      FilterKeysDistinct(s[1..], p, key);
      if p(s[0]) {
        var r := [s[0]] + rest;
        forall i, j | 0 <= i < j < |r| ensures key(r[i]) != key(r[j]) {
          if i == 0 {
            assert r[j] in s[1..];
            var m :| 0 <= m < |s[1..]| && s[1..][m] == r[j];
            assert s[m + 1] == r[j];
          } else {
            assert r[i] == rest[i - 1] && r[j] == rest[j - 1];
          }
        }
      }
    }
  }

  /** The number of rows satisfying `p`. */
  function Count<T>(s: seq<T>, p: T -> bool): nat {
    if |s| == 0 then 0 else (if p(s[0]) then 1 else 0) + Count(s[1..], p)
  }

  lemma {:induction false} CountFilter<T(!new)>(s: seq<T>, p: T -> bool)
    ensures Count(s, p) == |Filter(s, p)|
  {
    if |s| > 0 {
      CountFilter(s[1..], p);
    }
  }

  /** Rows that are a permutation of each other hold the same rows, and as many. */
  lemma SameRows<T>(a: seq<T>, b: seq<T>)
    requires multiset(a) == multiset(b)
    ensures |a| == |b|
    ensures forall x :: x in a <==> x in b
  {
    assert |a| == |multiset(a)| == |multiset(b)| == |b|;
    forall x ensures x in a <==> x in b {
      assert x in a <==> x in multiset(a);
      assert x in b <==> x in multiset(b);
    }
  }

  /** The rows are in ascending order of `key`. */
  predicate SortedBy<T>(s: seq<T>, key: T -> int) {
    forall i, j :: 0 <= i < j < |s| ==> key(s[i]) <= key(s[j])
  }

  /** `x` placed before the first row with a larger key. */
  function InsertByKey<T>(x: T, s: seq<T>, key: T -> int): (r: seq<T>)
    ensures multiset(r) == multiset(s) + multiset{x}
    ensures |r| == |s| + 1
  {
    if |s| == 0 || key(x) <= key(s[0]) then [x] + s
    else
      assert s == [s[0]] + s[1..];
      [s[0]] + InsertByKey(x, s[1..], key)
  }

  lemma ConsSorted<T>(h: T, t: seq<T>, key: T -> int)
    requires SortedBy(t, key)
    requires forall k :: 0 <= k < |t| ==> key(h) <= key(t[k])
    ensures SortedBy([h] + t, key)
  {
    var r := [h] + t;
    forall i, j | 0 <= i < j < |r| ensures key(r[i]) <= key(r[j]) {
      if i > 0 {
        assert r[i] == t[i - 1] && r[j] == t[j - 1];
      } else {
        assert r[j] == t[j - 1];
      }
    }
  }

  lemma {:induction false} InsertSorted<T>(x: T, s: seq<T>, key: T -> int)
    requires SortedBy(s, key)
    ensures SortedBy(InsertByKey(x, s, key), key)
  {
    if |s| == 0 || key(x) <= key(s[0]) {
      assert forall k :: 0 <= k < |s| ==> key(x) <= key(s[k]) by {
        forall k | 0 <= k < |s| ensures key(x) <= key(s[k]) {
          if k > 0 { assert key(s[0]) <= key(s[k]); }
        }
      }
      ConsSorted(x, s, key);
    } else {
      var t := s[1..];
      assert SortedBy(t, key) by {
        forall i, j | 0 <= i < j < |t| ensures key(t[i]) <= key(t[j]) {
          assert t[i] == s[i + 1] && t[j] == s[j + 1];
        }
      }
      InsertSorted(x, t, key);
      var u := InsertByKey(x, t, key);
      forall k | 0 <= k < |u| ensures key(s[0]) <= key(u[k]) {
        assert u[k] in multiset(t) + multiset{x} by {
          assert u[k] in multiset(u);
        }
        if u[k] in multiset(t) {
          assert u[k] in t;
          var m :| 0 <= m < |t| && t[m] == u[k];
          assert key(s[0]) <= key(s[m + 1]);
        }
      }
      ConsSorted(s[0], u, key);
    }
  }

  /** The rows whose key is `v`, in their order. */
  function KeyClass<T>(s: seq<T>, key: T -> int, v: int): seq<T> {
    if |s| == 0 then [] else (if key(s[0]) == v then [s[0]] else []) + KeyClass(s[1..], key, v)
  }

  /** Inserting `x` adds it in front of the rows with its key and leaves the other keys' rows alone. */
  lemma {:induction false} InsertKeyClass<T>(x: T, s: seq<T>, key: T -> int, v: int)
    ensures KeyClass(InsertByKey(x, s, key), key, v) == (if key(x) == v then [x] else []) + KeyClass(s, key, v)
  {
    if |s| == 0 || key(x) <= key(s[0]) {
      var r := [x] + s;
      assert r[1..] == s;
    } else {
      var u := InsertByKey(x, s[1..], key);
      var r := [s[0]] + u;
      assert InsertByKey(x, s, key) == r;
      assert r[1..] == u;
      InsertKeyClass(x, s[1..], key, v);
      var rest := KeyClass(s[1..], key, v);
      if key(s[0]) == v {
        assert KeyClass(r, key, v) == [s[0]] + rest;
        assert KeyClass(s, key, v) == [s[0]] + rest;
      } else {
        assert KeyClass(r, key, v) == (if key(x) == v then [x] else []) + rest;
        assert KeyClass(s, key, v) == rest;
      }
    }
  }

  /** The rows ordered by `key` (a query's `ORDER BY`); rows with equal keys keep their order. */
  function SortByKey<T>(s: seq<T>, key: T -> int): (r: seq<T>)
    ensures multiset(r) == multiset(s)
    ensures SortedBy(r, key)
    ensures forall v :: KeyClass(r, key, v) == KeyClass(s, key, v)
  {
    if |s| == 0 then []
    else
      var t := SortByKey(s[1..], key);
      InsertSorted(s[0], t, key);
      InsertKeepsClasses(s, t, key);
      InsertByKey(s[0], t, key)
  }

  /** Inserting the first row into a stable sort of the rest keeps every key's rows, and all the rows. */
  lemma InsertKeepsClasses<T>(s: seq<T>, t: seq<T>, key: T -> int)
    requires |s| > 0 && multiset(t) == multiset(s[1..])
    requires forall v :: KeyClass(t, key, v) == KeyClass(s[1..], key, v)
    ensures multiset(InsertByKey(s[0], t, key)) == multiset(s)
    ensures forall v :: KeyClass(InsertByKey(s[0], t, key), key, v) == KeyClass(s, key, v)
  {
    assert s == [s[0]] + s[1..];
    forall v ensures KeyClass(InsertByKey(s[0], t, key), key, v) == KeyClass(s, key, v) {
      InsertKeyClass(s[0], t, key, v);
    }
  }
}
