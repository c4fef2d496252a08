/**
 * Orders and the sorted sequences the sources keep everywhere.
 *
 * The sources keep their maps and sets in `BTreeMap`/`BTreeSet` (iterated in
 * ascending key order) and normalise lists with `sort` followed by `dedup`.
 * Here an order is a strict "less than" `lt`; `Sort`, `Dedup` and
 * `SortedElements` are the standard-library operations those calls stand for.
 */
module Order {

  /** The elements of a sequence, as a set. */
  function Elems<T(==)>(xs: seq<T>): set<T>
  {
    set x | x in xs
  }

  /** `lt` is a strict total order on the values in `dom`. */
  ghost predicate StrictTotalOn<T>(lt: (T, T) -> bool, dom: set<T>) {
    && (forall a :: a in dom ==> !lt(a, a))
    && (forall a, b, c :: a in dom && b in dom && c in dom && lt(a, b) && lt(b, c) ==> lt(a, c))
    && (forall a, b :: a in dom && b in dom && a != b ==> lt(a, b) || lt(b, a))
  }

  /** `lt` is a strict total order on the whole type. */
  ghost predicate StrictTotalOrder<T(!new)>(lt: (T, T) -> bool) {
    && (forall a :: !lt(a, a))
    && (forall a, b, c :: lt(a, b) && lt(b, c) ==> lt(a, c))
    && (forall a, b :: a != b ==> lt(a, b) || lt(b, a))
  }

  /** Ascending, equal neighbours allowed (what `sort` leaves). */
  ghost predicate Sorted<T>(xs: seq<T>, lt: (T, T) -> bool) {
    forall i, j :: 0 <= i < j < |xs| ==> !lt(xs[j], xs[i])
  }

  /** Strictly ascending (what `sort` + `dedup` and a `BTreeSet` iteration give). */
  ghost predicate StrictlySorted<T>(xs: seq<T>, lt: (T, T) -> bool) {
    forall i, j :: 0 <= i < j < |xs| ==> lt(xs[i], xs[j])
  }

  lemma StrictTotalSubset<T>(lt: (T, T) -> bool, big: set<T>, small: set<T>)
    requires StrictTotalOn(lt, big) && small <= big
    ensures StrictTotalOn(lt, small)
  {
  }

  lemma StrictTotalEverywhere<T(!new)>(lt: (T, T) -> bool, dom: set<T>)
    requires StrictTotalOrder(lt)
    ensures StrictTotalOn(lt, dom)
  {
  }

  /** A strictly ascending sequence has no repeated element. */
  lemma StrictlySortedDistinct<T>(xs: seq<T>, lt: (T, T) -> bool, i: int, j: int)
    requires StrictTotalOn(lt, Elems(xs)) && StrictlySorted(xs, lt)
    requires 0 <= i < |xs| && 0 <= j < |xs| && i != j
    ensures xs[i] != xs[j]
  {
    if i < j {
      assert lt(xs[i], xs[j]);
    } else {
      assert lt(xs[j], xs[i]);
    }
  }

  /**
   * Two strictly ascending sequences with the same elements are equal: the
   * sorted, duplicate-free form of a collection is unique.
   */
  lemma {:induction false} StrictlySortedUnique<T>(xs: seq<T>, ys: seq<T>, lt: (T, T) -> bool)
    requires StrictTotalOn(lt, Elems(xs))
    requires StrictlySorted(xs, lt) && StrictlySorted(ys, lt)
    requires Elems(xs) == Elems(ys)
    ensures xs == ys
    decreases |xs|
  {
    NonEmptyElem(xs);
    NonEmptyElem(ys);
    if xs != [] {
      var x0 := xs[0];
      assert x0 in Elems(ys);
      var y0 := ys[0];
      assert y0 in Elems(xs);
      var k :| 0 <= k < |xs| && xs[k] == y0;
      var m :| 0 <= m < |ys| && ys[m] == x0;
      assert k == 0 || lt(x0, y0);
      assert m == 0 || lt(y0, x0);
      assert x0 in Elems(xs);
      assert x0 == y0;
      forall x | x in xs[1..] ensures x in ys[1..] {
        var i :| 1 <= i < |xs| && xs[i] == x;
        assert lt(x0, x);
        assert x in ys;
        var j :| 0 <= j < |ys| && ys[j] == x;
        assert j != 0;
      }
      forall y | y in ys[1..] ensures y in xs[1..] {
        var j :| 1 <= j < |ys| && ys[j] == y;
        assert lt(x0, y);
        assert y in Elems(ys);
        assert y in xs;
        var i :| 0 <= i < |xs| && xs[i] == y;
        assert i != 0;
      }
      assert Elems(xs[1..]) == Elems(ys[1..]);
      StrictTotalSubset(lt, Elems(xs), Elems(xs[1..]));
      StrictlySortedUnique(xs[1..], ys[1..], lt);
      assert xs == [x0] + xs[1..];
      assert ys == [x0] + ys[1..];
    }
  }

  lemma NonEmptyElem<T>(xs: seq<T>)
    ensures xs != [] ==> xs[0] in Elems(xs)
  {
  }

  /** A sorted sequence without repeated elements is strictly sorted. */
  lemma SortedDistinctStrict<T>(xs: seq<T>, lt: (T, T) -> bool)
    requires StrictTotalOn(lt, Elems(xs)) && Sorted(xs, lt)
    requires forall i, j :: 0 <= i < j < |xs| ==> xs[i] != xs[j]
    ensures StrictlySorted(xs, lt)
  {
    forall i, j | 0 <= i < j < |xs| ensures lt(xs[i], xs[j]) {
      assert xs[i] in Elems(xs) && xs[j] in Elems(xs);
    }
  }

  /** Inserts `x` after every element that is not above it (one step of insertion sort). */
  method Insert<T(==)>(ys: seq<T>, x: T, lt: (T, T) -> bool) returns (zs: seq<T>)
    requires StrictTotalOn(lt, Elems(ys) + {x})
    requires Sorted(ys, lt)
    ensures Sorted(zs, lt)
    ensures multiset(zs) == multiset(ys) + multiset{x}
  {
    var k := 0;
    while k < |ys| && !lt(x, ys[k])
      invariant 0 <= k <= |ys|
      invariant forall j :: 0 <= j < k ==> !lt(x, ys[j])
    {
      k := k + 1;
    }
    zs := ys[..k] + [x] + ys[k..];
    InsertedSorted(ys, x, k, lt);
    assert ys == ys[..k] + ys[k..];
  }

  lemma InsertedSorted<T>(ys: seq<T>, x: T, k: int, lt: (T, T) -> bool)
    requires StrictTotalOn(lt, Elems(ys) + {x})
    requires Sorted(ys, lt)
    requires 0 <= k <= |ys|
    requires forall j :: 0 <= j < k ==> !lt(x, ys[j])
    requires k < |ys| ==> lt(x, ys[k])
    ensures Sorted(ys[..k] + [x] + ys[k..], lt)
  {
    var zs := ys[..k] + [x] + ys[k..];
    forall i, j | 0 <= i < j < |zs| ensures !lt(zs[j], zs[i]) {
      if j < k {
        assert zs[i] == ys[i] && zs[j] == ys[j];
      } else if j == k {
        assert zs[i] == ys[i] && zs[j] == x;
      } else if i == k {
        AboveInsertion(ys, x, k, j - 1, lt);
        assert zs[j] == ys[j - 1] && zs[i] == x;
      } else if i < k {
        assert zs[i] == ys[i] && zs[j] == ys[j - 1];
      } else {
        assert zs[i] == ys[i - 1] && zs[j] == ys[j - 1];
      }
    }
  }

  lemma AboveInsertion<T>(ys: seq<T>, x: T, k: int, m: int, lt: (T, T) -> bool)
    requires StrictTotalOn(lt, Elems(ys) + {x})
    requires Sorted(ys, lt)
    requires 0 <= k <= m < |ys|
    requires lt(x, ys[k])
    ensures !lt(ys[m], x)
  {
    var ym, yk := ys[m], ys[k];
    assert ym in Elems(ys) && yk in Elems(ys);
    assert lt(ym, x) ==> lt(ym, yk);
  }

  /** Stable-order-free model of `slice::sort` / `sort_by`: ascending, same elements with multiplicity. */
  method Sort<T(==)>(xs: seq<T>, lt: (T, T) -> bool) returns (ys: seq<T>)
    requires StrictTotalOn(lt, Elems(xs))
    ensures Sorted(ys, lt)
    ensures multiset(ys) == multiset(xs)
    ensures Elems(ys) == Elems(xs)
  {
    ys := [];
    for i := 0 to |xs|
      invariant Sorted(ys, lt)
      invariant multiset(ys) == multiset(xs[..i])
    {
      assert forall y :: y in ys ==> y in multiset(xs[..i]);
      assert Elems(ys) + {xs[i]} <= Elems(xs);
      StrictTotalSubset(lt, Elems(xs), Elems(ys) + {xs[i]});
      ys := Insert(ys, xs[i], lt);
      assert xs[..i + 1] == xs[..i] + [xs[i]];
    }
    assert xs[..|xs|] == xs;
    forall y ensures y in ys <==> y in xs {
      assert y in ys <==> y in multiset(ys);
      assert y in xs <==> y in multiset(xs);
    }
  }

  /** Model of `Vec::dedup`: drops every element equal to the one kept just before it. */
  method Dedup<T(==)>(xs: seq<T>, lt: (T, T) -> bool) returns (ys: seq<T>)
    requires StrictTotalOn(lt, Elems(xs))
    ensures Elems(ys) == Elems(xs)
    ensures |ys| <= |xs|
    ensures forall i :: 0 <= i < |ys| - 1 ==> ys[i] != ys[i + 1]
    ensures Sorted(xs, lt) ==> StrictlySorted(ys, lt)
  {
    ys := [];
    for i := 0 to |xs|
      invariant Elems(ys) == Elems(xs[..i])
      invariant |ys| <= i
      invariant i > 0 ==> ys != [] && ys[|ys| - 1] == xs[i - 1]
      invariant forall k :: 0 <= k < |ys| - 1 ==> ys[k] != ys[k + 1]
      invariant Sorted(xs, lt) ==> StrictlySorted(ys, lt)
    {
      assert xs[..i + 1] == xs[..i] + [xs[i]];
      if ys == [] || ys[|ys| - 1] != xs[i] {
        DedupStep(xs, ys, i, lt);
        assert Elems(ys + [xs[i]]) == Elems(ys) + {xs[i]};
        ys := ys + [xs[i]];
      } else {
        assert xs[i] in Elems(ys);
      }
    }
    assert xs[..|xs|] == xs;
  }

  lemma DedupStep<T>(xs: seq<T>, ys: seq<T>, i: int, lt: (T, T) -> bool)
    requires StrictTotalOn(lt, Elems(xs))
    requires 0 <= i < |xs|
    requires Elems(ys) == Elems(xs[..i])
    requires i > 0 ==> ys != [] && ys[|ys| - 1] == xs[i - 1]
    requires ys == [] || ys[|ys| - 1] != xs[i]
    requires Sorted(xs, lt) ==> StrictlySorted(ys, lt)
    ensures Sorted(xs, lt) ==> StrictlySorted(ys + [xs[i]], lt)
  {
    NonEmptyElem(ys);
    if Sorted(xs, lt) && i > 0 {
      var last := ys[|ys| - 1];
      assert last == xs[i - 1] && !lt(xs[i], xs[i - 1]);
      assert xs[i] in Elems(xs) && last in Elems(xs);
      assert lt(last, xs[i]);
      var zs := ys + [xs[i]];
      forall a, b | 0 <= a < b < |zs| ensures lt(zs[a], zs[b]) {
        if b < |ys| {
          assert zs[a] == ys[a] && zs[b] == ys[b];
        } else if a < |ys| - 1 {
          assert zs[a] == ys[a] && zs[b] == xs[i];
          assert lt(ys[a], last);
          assert ys[a] in Elems(xs[..i]);
          assert ys[a] in Elems(xs);
        } else {
          assert zs[a] == last && zs[b] == xs[i];
        }
      }
    }
  }

  /** The ascending, duplicate-free listing of a finite set (a `BTreeSet` iteration). */
  method SortedElements<T(==)>(s: set<T>, lt: (T, T) -> bool) returns (xs: seq<T>)
    requires StrictTotalOn(lt, s)
    ensures StrictlySorted(xs, lt)
    ensures Elems(xs) == s
    ensures |xs| == |s|
  {
    var acc: seq<T> := [];
    var rest := s;
    while rest != {}
      invariant Elems(acc) + rest == s
      decreases rest
    {
      var x :| x in rest;
      acc := acc + [x];
      rest := rest - {x};
    }
    var sorted := Sort(acc, lt);
    xs := Dedup(sorted, lt);
    DistinctCard(xs, lt);
  }

  /** A strictly ascending sequence has as many positions as distinct elements. */
  lemma {:induction false} DistinctCard<T>(xs: seq<T>, lt: (T, T) -> bool)
    requires StrictTotalOn(lt, Elems(xs)) && StrictlySorted(xs, lt)
    ensures |Elems(xs)| == |xs|
    decreases |xs|
  {
    if xs != [] {
      var t := xs[1..];
      assert StrictlySorted(t, lt) by {
        forall i, j | 0 <= i < j < |t| ensures lt(t[i], t[j]) {
          assert t[i] == xs[i + 1] && t[j] == xs[j + 1];
        }
      }
      assert Elems(t) <= Elems(xs) by {
        forall x | x in Elems(t) ensures x in Elems(xs) {
          var j :| 0 <= j < |t| && t[j] == x;
          assert xs[j + 1] == x;
        }
      }
      StrictTotalSubset(lt, Elems(xs), Elems(t));
      DistinctCard(t, lt);
      assert xs[0] in Elems(xs);
      forall j | 0 <= j < |t| ensures t[j] != xs[0] {
        assert lt(xs[0], xs[j + 1]);
      }
      assert Elems(xs) == Elems(t) + {xs[0]} by {
        forall x | x in Elems(xs) ensures x in Elems(t) + {xs[0]} {
          var j :| 0 <= j < |xs| && xs[j] == x;
          if j > 0 {
            assert t[j - 1] == x;
          }
        }
      }
    }
  }

  /** `iter().filter(p).collect()`: the elements satisfying `p`, in their original order. */
  function Filter<T>(xs: seq<T>, p: T -> bool): (ys: seq<T>)
    ensures |ys| <= |xs|
    ensures forall i :: 0 <= i < |ys| ==> ys[i] in xs && p(ys[i])
    ensures forall i :: 0 <= i < |xs| && p(xs[i]) ==> xs[i] in ys
    decreases |xs|
  {
    if xs == [] then [] else (if p(xs[0]) then [xs[0]] else []) + Filter(xs[1..], p)
  }

  /** Filtering keeps a strictly ascending sequence strictly ascending. */
  lemma {:induction false} FilterStrictlySorted<T>(xs: seq<T>, p: T -> bool, lt: (T, T) -> bool)
    requires StrictlySorted(xs, lt)
    ensures StrictlySorted(Filter(xs, p), lt)
    decreases |xs|
  {
    if xs != [] {
      var rest := Filter(xs[1..], p);
      FilterStrictlySorted(xs[1..], p, lt);
      forall k | 0 <= k < |rest| ensures lt(xs[0], rest[k]) {
        var j :| 0 <= j < |xs[1..]| && xs[1..][j] == rest[k];
        assert xs[j + 1] == rest[k];
      }
      if p(xs[0]) {
        var ys := [xs[0]] + rest;
        forall i, j | 0 <= i < j < |ys| ensures lt(ys[i], ys[j]) {
          if i == 0 {
            assert ys[j] == rest[j - 1];
          } else {
            assert ys[i] == rest[i - 1] && ys[j] == rest[j - 1];
          }
        }
      } else {
        assert Filter(xs, p) == rest;
      }
    }
  }

  /**
   * In a strictly ascending sequence, an element below position `k` sits at
   * an earlier position: the first match in ascending order is the smallest.
   */
  lemma BeforeInSorted<T>(xs: seq<T>, lt: (T, T) -> bool, k: int, b: T)
    requires StrictTotalOn(lt, Elems(xs)) && StrictlySorted(xs, lt)
    requires 0 <= k < |xs| && b in Elems(xs) && lt(b, xs[k])
    ensures exists j :: 0 <= j < k && xs[j] == b
  {
    var j :| 0 <= j < |xs| && xs[j] == b;
    assert xs[k] in Elems(xs);
    assert !lt(b, b);
    assert j < k;
  }

  /** A strictly ascending sequence holds each value at most once. */
  lemma {:induction false} AtMostOnce<T>(xs: seq<T>, lt: (T, T) -> bool, y: T)
    requires StrictTotalOn(lt, Elems(xs)) && StrictlySorted(xs, lt)
    ensures multiset(xs)[y] <= 1
    decreases |xs|
  {
    if xs != [] {
      var t := xs[1..];
      assert xs == [xs[0]] + t;
      assert StrictlySorted(t, lt) by {
        forall i, j | 0 <= i < j < |t| ensures lt(t[i], t[j]) {
          assert t[i] == xs[i + 1] && t[j] == xs[j + 1];
        }
      }
      assert Elems(t) <= Elems(xs);
      StrictTotalSubset(lt, Elems(xs), Elems(t));
      AtMostOnce(t, lt, y);
      assert xs[0] in Elems(xs);
      assert xs[0] !in t by {
        forall j | 0 <= j < |t| ensures t[j] != xs[0] {
          assert lt(xs[0], xs[j + 1]);
        }
      }
      assert multiset(xs) == multiset{xs[0]} + multiset(t);
    }
  }

  /** A value at two positions occurs at least twice. */
  lemma TwoPositions<T>(ys: seq<T>, i: int, j: int)
    requires 0 <= i < j < |ys|
    ensures ys[i] == ys[j] ==> multiset(ys)[ys[i]] >= 2
  {
    if ys[i] == ys[j] {
      assert ys == ys[..j] + [ys[j]] + ys[j + 1..];
      assert ys[i] in ys[..j];
      assert multiset(ys[..j])[ys[i]] >= 1;
    }
  }

  /**
   * What a loop pushing the elements of a strictly ascending sequence needs
   * to know, without the order's transitivity: each element is above the
   * earlier ones, not below any of them, and none repeats.
   */
  lemma AscendingFacts<T>(xs: seq<T>, lt: (T, T) -> bool)
    requires StrictTotalOn(lt, Elems(xs)) && StrictlySorted(xs, lt)
    ensures Sorted(xs, lt)
    ensures forall i :: 0 <= i < |xs| ==> !lt(xs[i], xs[i])
    ensures forall i, j :: 0 <= i < j < |xs| ==> xs[i] != xs[j]
  {
    forall i, j | 0 <= i < j < |xs| ensures !lt(xs[j], xs[i]) && xs[i] != xs[j] {
      assert xs[i] in Elems(xs) && xs[j] in Elems(xs);
    }
    forall i | 0 <= i < |xs| ensures !lt(xs[i], xs[i]) {
      assert xs[i] in Elems(xs);
    }
  }

  /**
   * Sorting a sequence without repeated elements gives a strictly ascending
   * one (`sort` after pushes that never repeat).
   */
  lemma SortedPermutationStrict<T>(xs: seq<T>, ys: seq<T>, lt: (T, T) -> bool)
    requires StrictTotalOn(lt, Elems(xs)) && StrictlySorted(xs, lt)
    requires Sorted(ys, lt) && multiset(ys) == multiset(xs)
    ensures StrictlySorted(ys, lt)
  {
    assert Elems(ys) == Elems(xs) by {
      forall y ensures y in ys <==> y in xs {
        assert y in ys <==> y in multiset(ys);
        assert y in xs <==> y in multiset(xs);
      }
    }
    forall i, j | 0 <= i < j < |ys| ensures ys[i] != ys[j] {
      AtMostOnce(xs, lt, ys[i]);
      TwoPositions(ys, i, j);
    }
    SortedDistinctStrict(ys, lt);
  }

  /** Growing a prefix by one position adds that element. */
  lemma ElemsOfLongerPrefix<T>(xs: seq<T>, i: int)
    requires 0 <= i < |xs|
    ensures Elems(xs[..i + 1]) == Elems(xs[..i]) + {xs[i]}
  {
    assert xs[..i + 1] == xs[..i] + [xs[i]];
  }

  /** Everything before position `i` of a strictly ascending sequence sorts below it. */
  lemma BelowLater<T>(xs: seq<T>, i: int, lt: (T, T) -> bool)
    requires StrictlySorted(xs, lt) && 0 <= i < |xs|
    ensures forall x :: x in Elems(xs[..i]) ==> lt(x, xs[i])
  {
    forall x | x in Elems(xs[..i]) ensures lt(x, xs[i]) {
      var j :| 0 <= j < i && xs[j] == x;
    }
  }

  /** Nothing before position `i` of an ascending sequence sorts above it. */
  lemma NotAboveLater<T>(xs: seq<T>, i: int, lt: (T, T) -> bool)
    requires Sorted(xs, lt) && 0 <= i < |xs|
    ensures forall x :: x in Elems(xs[..i]) ==> !lt(xs[i], x)
  {
    forall x | x in Elems(xs[..i]) ensures !lt(xs[i], x) {
      var j :| 0 <= j < i && xs[j] == x;
    }
  }

  /** A sequence without repeats does not hold position `i` before it. */
  lemma NotInPrefix<T>(xs: seq<T>, i: int)
    requires 0 <= i < |xs|
    requires forall a, b :: 0 <= a < b < |xs| ==> xs[a] != xs[b]
    ensures xs[i] !in Elems(xs[..i])
  {
  }

  /** A subset is no larger than its superset. */
  lemma SubsetCard<T>(small: set<T>, big: set<T>)
    requires small <= big
    ensures |small| <= |big|
  {
    assert big == small + (big - small);
    assert small * (big - small) == {};
  }

  // ---------------------------------------------------------------------------
  // Lexicographic order (the derived `Ord` of `Vec<T>` and `String`)
  // ---------------------------------------------------------------------------

  /** `a` sorts before `b`: first differing element decides; a proper prefix sorts first. */
  function LexLess<T(==)>(lt: (T, T) -> bool, a: seq<T>, b: seq<T>): bool
    decreases |a|
  {
    if |a| == 0 then |b| > 0
    else if |b| == 0 then false
    else if a[0] == b[0] then LexLess(lt, a[1..], b[1..])
    else lt(a[0], b[0])
  }

  lemma {:induction false} LexIrreflexive<T>(lt: (T, T) -> bool, a: seq<T>)
    ensures !LexLess(lt, a, a)
    decreases |a|
  {
    if |a| > 0 {
      LexIrreflexive(lt, a[1..]);
    }
  }

  lemma {:induction false} LexTransitive<T(!new)>(lt: (T, T) -> bool, a: seq<T>, b: seq<T>, c: seq<T>)
    requires StrictTotalOrder(lt)
    requires LexLess(lt, a, b) && LexLess(lt, b, c)
    ensures LexLess(lt, a, c)
    decreases |a|
  {
    if |a| > 0 && |b| > 0 && |c| > 0 && a[0] == b[0] && b[0] == c[0] {
      LexTransitive(lt, a[1..], b[1..], c[1..]);
    }
  }

  lemma {:induction false} LexTotal<T(!new)>(lt: (T, T) -> bool, a: seq<T>, b: seq<T>)
    requires StrictTotalOrder(lt)
    requires a != b
    ensures LexLess(lt, a, b) || LexLess(lt, b, a)
    decreases |a|
  {
    if |a| > 0 && |b| > 0 && a[0] == b[0] {
      assert a == [a[0]] + a[1..] && b == [b[0]] + b[1..];
      LexTotal(lt, a[1..], b[1..]);
    }
  }

  /** A proper prefix sorts before each of its extensions. */
  lemma {:induction false} LexPrefix<T>(lt: (T, T) -> bool, a: seq<T>, rest: seq<T>)
    requires |rest| > 0
    ensures LexLess(lt, a, a + rest)
    decreases |a|
  {
    if |a| > 0 {
      assert (a + rest)[1..] == a[1..] + rest;
      LexPrefix(lt, a[1..], rest);
    }
  }

  /** The lexicographic extension of a strict total order is a strict total order. */
  lemma LexStrictTotal<T(!new)>(lt: (T, T) -> bool)
    requires StrictTotalOrder(lt)
    ensures StrictTotalOrder((a: seq<T>, b: seq<T>) => LexLess(lt, a, b))
  {
    var L := (a: seq<T>, b: seq<T>) => LexLess(lt, a, b);
    forall a ensures !L(a, a) {
      LexIrreflexive(lt, a);
    }
    forall a, b, c | L(a, b) && L(b, c) ensures L(a, c) {
      LexTransitive(lt, a, b, c);
    }
    forall a, b | a != b ensures L(a, b) || L(b, a) {
      LexTotal(lt, a, b);
    }
  }

  // ---------------------------------------------------------------------------
  // The concrete orders of the sources
  // ---------------------------------------------------------------------------

  /** Order of `u32` ids. */
  function NatLess(a: nat, b: nat): bool { a < b }

  function CharLess(a: char, b: char): bool { a < b }

  /**
   * Order of `String`: Rust compares the UTF-8 bytes, which orders strings
   * exactly as comparing their code points lexicographically does.
   */
  function StrLess(a: string, b: string): bool { LexLess(CharLess, a, b) }

  lemma NatLessTotal(dom: set<nat>)
    ensures StrictTotalOn(NatLess, dom)
  {
  }

  lemma StrLessTotal(dom: set<string>)
    ensures StrictTotalOn(StrLess, dom)
  {
    assert StrictTotalOrder(CharLess);
    LexStrictTotal(CharLess);
    var L := (a: string, b: string) => LexLess(CharLess, a, b);
    assert forall a, b :: L(a, b) == StrLess(a, b);
  }

  lemma StrLessTotalOrder()
    ensures StrictTotalOrder(StrLess)
  {
    assert StrictTotalOrder(CharLess);
    LexStrictTotal(CharLess);
    var L := (a: string, b: string) => LexLess(CharLess, a, b);
    assert forall a, b :: L(a, b) == StrLess(a, b);
  }
}
