/** Ordering utilities over numbers: an ascending sort of a sequence of
    reals (PHP's `sort` on the value list) and the ascending listing of a
    finite set of integer keys (PHP's `ksort` on timestamp buckets). */
module Sorting {

  predicate Sorted(s: seq<real>)
  {
    forall i, j :: 0 <= i <= j < |s| ==> s[i] <= s[j]
  }

  function Insert(x: real, s: seq<real>): (r: seq<real>)
    requires Sorted(s)
    ensures Sorted(r)
    ensures multiset(r) == multiset(s) + multiset{x}
    ensures |r| == |s| + 1
    ensures r[0] == if |s| == 0 || x <= s[0] then x else s[0]
  {
    if |s| == 0 then [x]
    else if x <= s[0] then
      ConsSorted(x, s);
      [x] + s
    else
      var rest := Insert(x, s[1..]);
      assert s == [s[0]] + s[1..];
      ConsSorted(s[0], rest);
      [s[0]] + rest
  }

  /** An ascending list stays ascending under a head no greater than its
      first element. */
  lemma ConsSorted(a: real, t: seq<real>)
    requires Sorted(t) && (|t| > 0 ==> a <= t[0])
    ensures Sorted([a] + t)
  {
  }

  /** Insertion sort: an ascending permutation of `s`. */
  function Sort(s: seq<real>): (r: seq<real>)
    ensures Sorted(r)
    ensures multiset(r) == multiset(s)
    ensures |r| == |s|
  {
    if |s| == 0 then []
    else
      assert s == [s[0]] + s[1..];
      Insert(s[0], Sort(s[1..]))
  }

  /** Sorting an already ascending sequence leaves it unchanged. */
  lemma {:induction false} SortOfSorted(s: seq<real>)
    requires Sorted(s)
    ensures Sort(s) == s
  {
    if |s| > 0 {
      SortOfSorted(s[1..]);
      assert s == [s[0]] + s[1..];
    }
  }

  /* ---------- Integer-keyed pairs ---------- */

  predicate KeysIncreasing<V>(ps: seq<(int, V)>)
  {
    forall i, j :: 0 <= i < j < |ps| ==> ps[i].0 < ps[j].0
  }

  predicate DistinctKeys<V>(ps: seq<(int, V)>)
  {
    forall i, j :: 0 <= i < j < |ps| ==> ps[i].0 != ps[j].0
  }

  function InsertByKey<V(==)>(p: (int, V), ps: seq<(int, V)>): (r: seq<(int, V)>)
    requires KeysIncreasing(ps)
    requires forall i :: 0 <= i < |ps| ==> ps[i].0 != p.0
    ensures KeysIncreasing(r)
    ensures multiset(r) == multiset(ps) + multiset{p}
    ensures |r| == |ps| + 1
    ensures forall i :: 0 <= i < |r| ==> r[i] == p || r[i] in ps
    ensures r[0] == if |ps| == 0 || p.0 < ps[0].0 then p else ps[0]
  {
    if |ps| == 0 then [p]
    else if p.0 < ps[0].0 then
      ConsIncreasing(p, ps);
      [p] + ps
    else
      var rest := InsertByKey(p, ps[1..]);
      assert ps == [ps[0]] + ps[1..];
      ConsIncreasing(ps[0], rest);
      assert forall i :: 0 <= i < |rest| ==> rest[i] in ps[1..] ==> rest[i] in ps;
      [ps[0]] + rest
  }

  /** Increasing keys stay increasing under a head with a smaller key than
      the first. */
  lemma ConsIncreasing<V>(a: (int, V), t: seq<(int, V)>)
    requires KeysIncreasing(t) && (|t| > 0 ==> a.0 < t[0].0)
    ensures KeysIncreasing([a] + t)
  {
  }

  /** PHP's `ksort` on an array with integer keys: the same key/value pairs,
      listed by ascending key. */
  function SortByKey<V(==)>(ps: seq<(int, V)>): (r: seq<(int, V)>)
    requires DistinctKeys(ps)
    ensures KeysIncreasing(r)
    ensures multiset(r) == multiset(ps)
    ensures |r| == |ps|
    ensures forall i :: 0 <= i < |r| ==> r[i] in ps
  {
    if |ps| == 0 then []
    else
      var tail := ps[1..];
      assert ps == [ps[0]] + tail;
      assert DistinctKeys(tail);
      var rest := SortByKey(tail);
      HeadKeyFresh(ps, rest);
      InsertByKey(ps[0], rest)
  }

  lemma HeadKeyFresh<V>(ps: seq<(int, V)>, rest: seq<(int, V)>)
    requires |ps| > 0 && DistinctKeys(ps)
    requires forall i :: 0 <= i < |rest| ==> rest[i] in ps[1..]
    ensures forall i :: 0 <= i < |rest| ==> rest[i].0 != ps[0].0
  {
    forall i | 0 <= i < |rest|
      ensures rest[i].0 != ps[0].0
    {
      var j :| 0 <= j < |ps| - 1 && ps[1..][j] == rest[i];
      assert ps[j + 1] == rest[i];
    }
  }
}
