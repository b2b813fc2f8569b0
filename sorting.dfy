/**
 * Python's `sorted(xs, key=k, reverse=True)`: a stable sort into non-increasing
 * key order. SQLite's `ORDER BY <column> DESC` is modelled by the same function
 * over the table's rowid order.
 */
module Sorting {
  import opened Text

  /** Keys never increase from left to right. */
  predicate SortedDesc<T>(s: seq<T>, key: T -> int)
  {
    forall i, j :: 0 <= i < j < |s| ==> key(s[i]) >= key(s[j])
  }

  /** Places `x` after every leading element of `s` with a larger key. */
  function InsertDesc<T>(x: T, s: seq<T>, key: T -> int): (r: seq<T>)
    ensures multiset(r) == multiset(s) + multiset{x}
  {
    if s == [] || key(s[0]) <= key(x) then
      [x] + s
    else
      assert s == [s[0]] + s[1..];
      [s[0]] + InsertDesc(x, s[1..], key)
  }

  /** Inserting into a sorted sequence keeps it sorted. */
  lemma {:induction false} InsertDescSorted<T>(x: T, s: seq<T>, key: T -> int)
    requires SortedDesc(s, key)
    ensures SortedDesc(InsertDesc(x, s, key), key)
    ensures InsertDesc(x, s, key)[0] == x || (s != [] && InsertDesc(x, s, key)[0] == s[0])
  {
    if s != [] && key(s[0]) > key(x) {
      var rest := InsertDesc(x, s[1..], key);
      InsertDescSorted(x, s[1..], key);
      assert key(s[0]) >= key(rest[0]);
      var r := [s[0]] + rest;
      forall i, j | 0 <= i < j < |r|
        ensures key(r[i]) >= key(r[j])
      {
        if i > 0 {
          assert r[i] == rest[i - 1] && r[j] == rest[j - 1];
        } else {
          assert r[j] == rest[j - 1];
        }
      }
    }
  }

  /** `sorted(s, key=key, reverse=True)`: a rearrangement of `s`. */
  function SortDesc<T>(s: seq<T>, key: T -> int): (r: seq<T>)
    ensures multiset(r) == multiset(s)
  {
    if s == [] then []
    else
      assert s == [s[0]] + s[1..];
      InsertDesc(s[0], SortDesc(s[1..], key), key)
  }

  /** The elements of `s` whose key is `v`, in their order in `s`. */
  function WithKey<T>(s: seq<T>, key: T -> int, v: int): (r: seq<T>)
    ensures |r| <= |s|
    ensures forall x :: x in r ==> x in s && key(x) == v
  {
    if s == [] then []
    else IfKey(s[0], key, v) + WithKey(s[1..], key, v)
  }

  /** The key filter of a sequence with a known head. */
  lemma WithKeyCons<T>(a: T, t: seq<T>, key: T -> int, v: int)
    ensures WithKey([a] + t, key, v) == IfKey(a, key, v) + WithKey(t, key, v)
  {
    assert ([a] + t)[1..] == t;
  }

  /** `[x]` when `x` has the key `v`, and nothing otherwise. */
  function IfKey<T>(x: T, key: T -> int, v: int): (r: seq<T>)
    ensures r == [] || r == [x]
    ensures r == [x] <==> key(x) == v
  {
    if key(x) == v then [x] else []
  }

  /** Insertion puts `x` ahead of every element with its key. */
  lemma {:induction false} InsertDescStable<T>(x: T, s: seq<T>, key: T -> int, v: int)
    ensures WithKey(InsertDesc(x, s, key), key, v) == IfKey(x, key, v) + WithKey(s, key, v)
  {
    if s == [] || key(s[0]) <= key(x) {
      WithKeyCons(x, s, key, v);
    } else {
      var rest := InsertDesc(x, s[1..], key);
      var w := WithKey(s[1..], key, v);
      calc {
        WithKey(InsertDesc(x, s, key), key, v);
        WithKey([s[0]] + rest, key, v);
        { WithKeyCons(s[0], rest, key, v); }
        IfKey(s[0], key, v) + WithKey(rest, key, v);
        { InsertDescStable(x, s[1..], key, v); }
        IfKey(s[0], key, v) + (IfKey(x, key, v) + w);
        { assert IfKey(s[0], key, v) == [] || IfKey(x, key, v) == []; }
        IfKey(x, key, v) + (IfKey(s[0], key, v) + w);
        { WithKeyCons(s[0], s[1..], key, v); assert s == [s[0]] + s[1..]; }
        IfKey(x, key, v) + WithKey(s, key, v);
      }
    }
  }

  /**
   * `sorted` is stable: for every key, the elements with that key come out in
   * the order they went in.
   */
  lemma {:induction false} SortDescStable<T>(s: seq<T>, key: T -> int, v: int)
    ensures WithKey(SortDesc(s, key), key, v) == WithKey(s, key, v)
  {
    if s != [] {
      SortDescStable(s[1..], key, v);
      InsertDescStable(s[0], SortDesc(s[1..], key), key, v);
    }
  }

  /** `sorted(s, key=key, reverse=True)` is in non-increasing key order. */
  lemma {:induction false} SortDescSorted<T>(s: seq<T>, key: T -> int)
    ensures SortedDesc(SortDesc(s, key), key)
  {
    if s != [] {
      SortDescSorted(s[1..], key);
      InsertDescSorted(s[0], SortDesc(s[1..], key), key);
    }
  }

  /** A prefix of a sorted sequence is sorted, and nothing after it has a larger key. */
  lemma SortedSplit<T>(t: seq<T>, key: T -> int, m: nat)
    requires SortedDesc(t, key) && m <= |t|
    ensures SortedDesc(t[..m], key)
    ensures forall x, y :: x in t[m..] && y in t[..m] ==> key(x) <= key(y)
  {
    forall x, y | x in t[m..] && y in t[..m] ensures key(x) <= key(y) {
      var j :| 0 <= j < |t[m..]| && t[m..][j] == x;
      var i :| 0 <= i < m && t[..m][i] == y;
      assert t[m + j] == x && t[i] == y;
    }
  }

  /**
   * `sorted(s, key, reverse=True)[:n]`: at most `n` elements when `n >= 0`, in
   * non-increasing key order, drawn from `s`, and none of those left out has a
   * larger key than one kept.
   */
  lemma TopN<T>(s: seq<T>, key: T -> int, n: int)
    ensures var r := Prefix(SortDesc(s, key), n);
      && (n >= 0 ==> |r| <= n)
      && SortedDesc(r, key)
      && multiset(r) <= multiset(s)
      && (forall x, y :: x in multiset(s) - multiset(r) && y in r ==> key(x) <= key(y))
  {
    var t := SortDesc(s, key);
    SortDescSorted(s, key);
    var r := Prefix(t, n);
    var rest := t[|r|..];
    assert t == r + rest;
    assert multiset(s) - multiset(r) == multiset(rest);
    SortedSplit(t, key, |r|);
  }

  /** `sorted(s, reverse=True)[:n]` has exactly as many elements as `s[:n]`. */
  lemma TopNLength<T>(s: seq<T>, key: T -> int, n: int)
    ensures n >= 0 ==> |Prefix(SortDesc(s, key), n)| == Min(n, |s|)
    ensures n < 0 ==> |Prefix(SortDesc(s, key), n)| == Max(|s| + n, 0)
  {
    var t := SortDesc(s, key);
    assert |multiset(t)| == |multiset(s)|;
  }
}
