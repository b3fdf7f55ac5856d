/** Ranking of detections, shared by the line and the circle detector: both sort their
    candidates with `sort((a, b) => b.votes - a.votes)` (a stable sort, most votes first)
    and cap the result with `slice(0, n)`. */
module Ranking {

  /** Every element is ranked at least as high as every later one. */
  ghost predicate SortedDesc<T>(s: seq<T>, key: T -> int)
  {
    forall i, j :: 0 <= i < j < |s| ==> key(s[i]) >= key(s[j])
  }

  /** The elements of `s` whose key is `v`, in their order in `s`. */
  function WithKey<T>(s: seq<T>, key: T -> int, v: int): seq<T>
  {
    if s == [] then []
    else (if key(s[0]) == v then [s[0]] else []) + WithKey(s[1..], key, v)
  }

  /** Places `x` in front of the first element of `t` whose key is not larger than its own. */
  function Insert<T>(x: T, t: seq<T>, key: T -> int): seq<T>
  {
    if t == [] || key(x) >= key(t[0]) then [x] + t
    else [t[0]] + Insert(x, t[1..], key)
  }

  /** Stable sort by descending key: the comparator `b.votes - a.votes`. */
  function SortByKeyDesc<T>(s: seq<T>, key: T -> int): seq<T>
  {
    if s == [] then [] else Insert(s[0], SortByKeyDesc(s[1..], key), key)
  }

  /** `slice(0, n)`: exactly the first `n` elements, or all of them when there are fewer. */
  function Take<T>(s: seq<T>, n: nat): (r: seq<T>)
    ensures |r| <= n && |r| <= |s|
    ensures r == s[..|r|]
    ensures |s| <= n ==> r == s
    ensures |s| > n ==> |r| == n
  {
    if |s| <= n then s else s[..n]
  }

  lemma {:induction false} InsertPermutes<T>(x: T, t: seq<T>, key: T -> int)
    ensures multiset(Insert(x, t, key)) == multiset([x] + t)
    decreases |t|
  {
    if t != [] && key(x) < key(t[0]) {
      InsertPermutes(x, t[1..], key);
      assert t == [t[0]] + t[1..];
    }
  }

  lemma {:induction false} InsertSorted<T>(x: T, t: seq<T>, key: T -> int)
    requires SortedDesc(t, key)
    ensures SortedDesc(Insert(x, t, key), key)
    decreases |t|
  {
    if t != [] && key(x) < key(t[0]) {
      InsertSorted(x, t[1..], key);
      var r := Insert(x, t[1..], key);
      InsertPermutes(x, t[1..], key);
      forall j | 0 <= j < |r|
        ensures key(t[0]) >= key(r[j])
      {
        assert r[j] in multiset(r);
        assert r[j] in multiset([x] + t[1..]);
        assert r[j] == x || r[j] in t[1..];
      }
    }
  }

  /** The sort returns a permutation of its input, ordered by descending key. */
  lemma {:induction false} SortByKeyDescCorrect<T>(s: seq<T>, key: T -> int)
    ensures SortedDesc(SortByKeyDesc(s, key), key)
    ensures multiset(SortByKeyDesc(s, key)) == multiset(s)
    decreases |s|
  {
    if s != [] {
      SortByKeyDescCorrect(s[1..], key);
      InsertSorted(s[0], SortByKeyDesc(s[1..], key), key);
      InsertPermutes(s[0], SortByKeyDesc(s[1..], key), key);
      assert s == [s[0]] + s[1..];
    }
  }

  lemma {:induction false} InsertStable<T>(x: T, t: seq<T>, key: T -> int, v: int)
    requires SortedDesc(t, key)
    ensures WithKey(Insert(x, t, key), key, v) == WithKey([x] + t, key, v)
    decreases |t|
  {
    if t == [] || key(x) >= key(t[0]) {
    } else {
      InsertStable(x, t[1..], key, v);
      assert ([t[0]] + Insert(x, t[1..], key))[1..] == Insert(x, t[1..], key);
      assert ([x] + t[1..])[1..] == t[1..];
      assert ([x] + t)[1..] == t;
      assert t[1..] == t[1..][0..];
    }
  }

  /** Stability: among elements with equal keys the sort keeps their input order. */
  lemma {:induction false} SortByKeyDescStable<T>(s: seq<T>, key: T -> int, v: int)
    ensures WithKey(SortByKeyDesc(s, key), key, v) == WithKey(s, key, v)
    decreases |s|
  {
    if s != [] {
      SortByKeyDescStable(s[1..], key, v);
      SortByKeyDescCorrect(s[1..], key);
      InsertStable(s[0], SortByKeyDesc(s[1..], key), key, v);
      assert ([s[0]] + SortByKeyDesc(s[1..], key))[1..] == SortByKeyDesc(s[1..], key);
    }
  }

  /** Capping a ranked list keeps the strongest entries: the kept part is still ranked, and
      an entry is cut off only when the cap is full of entries ranked at least as high. */
  lemma TakeKeepsStrongest<T>(s: seq<T>, n: nat, key: T -> int)
    requires SortedDesc(s, key)
    ensures SortedDesc(Take(s, n), key)
    ensures forall x :: x in s && x !in Take(s, n) ==>
      |Take(s, n)| == n && forall i :: 0 <= i < n ==> key(Take(s, n)[i]) >= key(x)
  {
    var t := Take(s, n);
    forall x | x in s && x !in t
      ensures |t| == n && forall i :: 0 <= i < n ==> key(t[i]) >= key(x)
    {
      var j :| 0 <= j < |s| && s[j] == x;
    }
  }

  /** `sort(...).slice(0, n)` on any list: at most n entries, ranked, all taken from the input,
      and every input entry left out ranks no higher than any entry kept. */
  lemma TopByKey<T>(s: seq<T>, n: nat, key: T -> int)
    ensures |Take(SortByKeyDesc(s, key), n)| <= n
    ensures SortedDesc(Take(SortByKeyDesc(s, key), n), key)
    ensures forall x :: x in Take(SortByKeyDesc(s, key), n) ==> x in s
    ensures |s| <= n ==> multiset(Take(SortByKeyDesc(s, key), n)) == multiset(s)
    ensures forall x :: x in s && x !in Take(SortByKeyDesc(s, key), n) ==>
      |Take(SortByKeyDesc(s, key), n)| == n && forall i :: 0 <= i < n ==> key(Take(SortByKeyDesc(s, key), n)[i]) >= key(x)
  {
    var sorted := SortByKeyDesc(s, key);
    SortByKeyDescCorrect(s, key);
    TakeKeepsStrongest(sorted, n, key);
    forall x | x in Take(sorted, n)
      ensures x in s
    {
      assert x in multiset(sorted);
    }
    forall x | x in s
      ensures x in sorted
    {
      assert x in multiset(s);
    }
  }
}
