/**
 * The operator address (src/spec/addr.rs): a path of `u32` indices such as
 * `[0, 8, 10]`, the join key between topology nodes and log rows. Its derived
 * `Eq`/`Ord` compare the paths element by element, lexicographically, which
 * is what lets it key a `BTreeMap`/`BTreeSet`.
 */
module Address {
  import opened Order

  type u32 = x: int | 0 <= x < 0x1_0000_0000

  datatype Addr = Addr(path: seq<u32>)

  /** `Addr::new`: wraps the path as it is. */
  function New(path: seq<u32>): (a: Addr)
    ensures a.path == path
  {
    Addr(path)
  }

  /** Distinct paths give distinct addresses. */
  lemma NewInjective(p: seq<u32>, q: seq<u32>)
    ensures New(p) == New(q) <==> p == q
  {
  }

  function U32Less(a: u32, b: u32): bool { a < b }

  /** The derived `Ord`: lexicographic on the paths. */
  function Less(a: Addr, b: Addr): bool {
    LexLess(U32Less, a.path, b.path)
  }

  /** `a <= b` in the derived order. */
  predicate LessEq(a: Addr, b: Addr) {
    a == b || Less(a, b)
  }

  /** The derived `Eq`: equal exactly when the paths agree element by element. */
  lemma EqualIffElementwise(a: Addr, b: Addr)
    ensures a == b <==> (|a.path| == |b.path| && forall i :: 0 <= i < |a.path| ==> a.path[i] == b.path[i])
  {
    if |a.path| == |b.path| && forall i :: 0 <= i < |a.path| ==> a.path[i] == b.path[i] {
      assert a.path == b.path;
    }
  }

  /** `Less` is a strict total order on addresses, so addresses can key ordered maps and sets. */
  lemma LessStrictTotal()
    ensures StrictTotalOrder(Less)
  {
    assert StrictTotalOrder(U32Less);
    LexStrictTotal(U32Less);
    var L := (x: seq<u32>, y: seq<u32>) => LexLess(U32Less, x, y);
    forall a: Addr, b: Addr, c: Addr
      ensures !Less(a, a)
      ensures Less(a, b) && Less(b, c) ==> Less(a, c)
      ensures a != b ==> Less(a, b) || Less(b, a)
    {
      assert Less(a, b) == L(a.path, b.path);
      assert Less(b, c) == L(b.path, c.path);
      assert Less(a, c) == L(a.path, c.path);
      assert Less(b, a) == L(b.path, a.path);
      assert !L(a.path, a.path);
      assert a != b ==> a.path != b.path;
    }
  }

  lemma LessTotalOn(dom: set<Addr>)
    ensures StrictTotalOn(Less, dom)
  {
    LessStrictTotal();
  }

  /**
   * `<=` on addresses is a total order: reflexive, antisymmetric, transitive
   * and connex.
   */
  lemma LessEqTotalOrder(a: Addr, b: Addr, c: Addr)
    ensures LessEq(a, a)
    ensures LessEq(a, b) && LessEq(b, a) ==> a == b
    ensures LessEq(a, b) && LessEq(b, c) ==> LessEq(a, c)
    ensures LessEq(a, b) || LessEq(b, a)
  {
    LessStrictTotal();
  }

  /** A proper prefix sorts before every extension of it. */
  lemma PrefixSortsFirst(a: Addr, ext: seq<u32>)
    requires |ext| > 0
    ensures Less(a, Addr(a.path + ext))
  {
    LexPrefix(U32Less, a.path, ext);
  }
}
