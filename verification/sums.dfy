/**
 * The sums a report accumulates: over the operator views of one node (the
 * `self_*` fields) and over the node views of the whole report (the totals).
 * Addition commutes, so neither sum depends on the order of the walk.
 */
module Sums {

  /** `f` summed over a sequence, accumulated from the front as the loops do. */
  function SumOf<T>(xs: seq<T>, f: T -> nat): nat
    decreases |xs|
  {
    if xs == [] then 0 else SumOf(xs[..|xs| - 1], f) + f(xs[|xs| - 1])
  }

  lemma SumOfAppend<T>(xs: seq<T>, x: T, f: T -> nat)
    ensures SumOf(xs + [x], f) == SumOf(xs, f) + f(x)
  {
    assert (xs + [x])[..|xs|] == xs;
  }

  /** Taking one element out of a sequence takes its value out of the sum. */
  lemma {:induction false} SumOfRemove<T>(ys: seq<T>, k: int, f: T -> nat)
    requires 0 <= k < |ys|
    ensures SumOf(ys, f) == SumOf(ys[..k] + ys[k + 1..], f) + f(ys[k])
    decreases |ys|
  {
    var n := |ys| - 1;
    if k == n {
      assert ys[..k] + ys[k + 1..] == ys[..n];
    } else {
      var init := ys[..n];
      SumOfRemove(init, k, f);
      assert ys[..k] + ys[k + 1..] == (init[..k] + init[k + 1..]) + [ys[n]];
      SumOfAppend(init[..k] + init[k + 1..], ys[n], f);
    }
  }

  /** A sum over a sequence depends only on the multiset of its elements. */
  lemma {:induction false} SumOfPermutation<T>(xs: seq<T>, ys: seq<T>, f: T -> nat)
    requires multiset(xs) == multiset(ys)
    ensures SumOf(xs, f) == SumOf(ys, f)
    decreases |xs|
  {
    if xs == [] {
      assert |ys| == |multiset(ys)| == 0;
    } else {
      var n := |xs| - 1;
      var x := xs[n];
      assert xs == xs[..n] + [x];
      assert x in multiset(ys);
      var k :| 0 <= k < |ys| && ys[k] == x;
      var rest := ys[..k] + ys[k + 1..];
      assert ys == ys[..k] + [x] + ys[k + 1..];
      assert multiset(rest) == multiset(ys) - multiset{x};
      assert multiset(xs[..n]) == multiset(xs) - multiset{x};
      SumOfPermutation(xs[..n], rest, f);
      SumOfRemove(ys, k, f);
    }
  }

  /** `f` summed over the values of a map, in no particular order. */
  ghost function MapSum<K, V>(m: map<K, V>, f: V -> nat): nat
    decreases |m|
  {
    if m == map[] then 0
    else
      var k :| k in m;
      assert |m - {k}| == |m| - 1 by {
        assert (m - {k}).Keys == m.Keys - {k};
      }
      f(m[k]) + MapSum(m - {k}, f)
  }

  /** Any key may be taken out first. */
  lemma {:induction false} MapSumRemove<K, V>(m: map<K, V>, k: K, f: V -> nat)
    requires k in m
    ensures MapSum(m, f) == f(m[k]) + MapSum(m - {k}, f)
    decreases |m|
  {
    var j :| j in m && MapSum(m, f) == f(m[j]) + MapSum(m - {j}, f);
    if j != k {
      assert (m - {j}).Keys == m.Keys - {j};
      assert (m - {k}).Keys == m.Keys - {k};
      MapSumRemove(m - {j}, k, f);
      MapSumRemove(m - {k}, j, f);
      assert (m - {j}) - {k} == (m - {k}) - {j};
    }
  }

  /**
   * A map listed key by key, each key once with its value beside it, sums as
   * the listed values do.
   */
  lemma {:induction false} MapSumOfSeq<K, V>(m: map<K, V>, ks: seq<K>, vs: seq<V>, f: V -> nat)
    requires |ks| == |vs|
    requires forall i, j :: 0 <= i < j < |ks| ==> ks[i] != ks[j]
    requires m.Keys == set k | k in ks
    requires forall i :: 0 <= i < |ks| ==> ks[i] in m && m[ks[i]] == vs[i]
    ensures MapSum(m, f) == SumOf(vs, f)
    decreases |ks|
  {
    if ks == [] {
      assert m == map[];
    } else {
      var n := |ks| - 1;
      var k := ks[n];
      MapSumRemove(m, k, f);
      var rest, ks', vs' := m - {k}, ks[..n], vs[..n];
      assert SumOf(vs, f) == SumOf(vs', f) + f(vs[n]);
      forall i | 0 <= i < n
        ensures ks'[i] in rest && rest[ks'[i]] == vs'[i]
      {
        assert ks[i] != k;
      }
      assert rest.Keys == set x | x in ks' by {
        forall x | x in ks' ensures x in rest.Keys {
          var j :| 0 <= j < n && ks'[j] == x;
        }
        assert ks == ks' + [k];
      }
      MapSumOfSeq(rest, ks', vs', f);
    }
  }
}
