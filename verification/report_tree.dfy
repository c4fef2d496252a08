/**
 * What both generations of `build_report_data` do alike (src/view.rs and
 * src/model/mod.rs), written once: the strict one-owner-per-address check,
 * turning child lists into parent lists, the primary parent, the spanning
 * tree it induces, and the plan-node views of a rule.
 *
 * Names are ordered by a parameter `lt`; the sources use the order of
 * `String` (`Order.StrLess`), and the callers pass it.
 */
module ReportTree {
  import opened Wrappers
  import opened Order
  import opened Address
  import opened OpsRules

  // ---------------------------------------------------------------------------
  // One owner per address
  // ---------------------------------------------------------------------------

  /** The clash the check bails with: `addr` is listed by `first` and again by `second`. */
  datatype SharedAddr = SharedAddr(addr: Addr, first: string, second: string)

  /** No address is listed by two names. */
  ghost predicate OwnersUnique(ops: map<string, set<Addr>>) {
    forall n1, n2, a :: n1 in ops && n2 in ops && a in ops[n1] && a in ops[n2] ==> n1 == n2
  }

  /** The addresses some name lists. */
  ghost function Owned(ops: map<string, set<Addr>>): set<Addr> {
    set n, a | n in ops && a in ops[n] :: a
  }

  /** `owner` maps exactly the listed addresses, each to a name listing it. */
  ghost predicate OwnerMap(owner: map<Addr, string>, ops: map<string, set<Addr>>) {
    && owner.Keys == Owned(ops)
    && forall a :: a in owner ==> owner[a] in ops && a in ops[owner[a]]
  }

  /** The addresses the first `i` of `names` list. */
  ghost function OwnedUpTo(ops: map<string, set<Addr>>, names: seq<string>, i: nat): set<Addr>
    requires i <= |names| && Elems(names) <= ops.Keys
  {
    set j, a | 0 <= j < i && a in ops[names[j]] :: a
  }

  /** The inner loop: `name` claims each of `addrs`; the first one already owned is a clash. */
  method ClaimAddrs(owner: map<Addr, string>, name: string, addrs: seq<Addr>)
    returns (r: Result<map<Addr, string>, SharedAddr>)
    requires forall i, j :: 0 <= i < j < |addrs| ==> addrs[i] != addrs[j]
    ensures r.Ok? <==> Elems(addrs) !! owner.Keys
    ensures r.Ok? ==> r.value.Keys == owner.Keys + Elems(addrs)
    ensures r.Ok? ==> forall a :: a in r.value ==> r.value[a] == (if a in owner then owner[a] else name)
    ensures r.Err? ==> r.error.addr in Elems(addrs) && r.error.addr in owner
                       && r.error.first == owner[r.error.addr] && r.error.second == name
  {
    var m := owner;
    for i := 0 to |addrs|
      invariant Elems(addrs[..i]) !! owner.Keys
      invariant m.Keys == owner.Keys + Elems(addrs[..i])
      invariant forall a :: a in m ==> m[a] == (if a in owner then owner[a] else name)
    {
      var a := addrs[i];
      assert addrs[..i + 1] == addrs[..i] + [a];
      if a in m {
        return Err(SharedAddr(a, m[a], name));
      }
      m := m[a := name];
    }
    assert addrs[..|addrs|] == addrs;
    return Ok(m);
  }

  /** A `BTreeSet<Addr>` walked in ascending order. */
  method AscendingAddrs(s: set<Addr>) returns (addrs: seq<Addr>)
    ensures Elems(addrs) == s && |addrs| == |s|
    ensures StrictlySorted(addrs, Less)
    ensures forall i, j :: 0 <= i < j < |addrs| ==> addrs[i] != addrs[j]
  {
    LessTotalOn(s);
    addrs := SortedElements(s, Less);
    AscendingFacts(addrs, Less);
  }

  /** A `BTreeMap<String, _>` or `BTreeSet<String>` walked in ascending order. */
  method AscendingNames(s: set<string>) returns (names: seq<string>)
    ensures Elems(names) == s && StrictlySorted(names, StrLess)
    ensures forall i, j :: 0 <= i < j < |names| ==> names[i] != names[j]
  {
    StrLessTotalOrder();
    StrictTotalEverywhere(StrLess, s);
    names := SortedElements(s, StrLess);
    AscendingFacts(names, StrLess);
  }

  /** Two names that never share an address stay disjoint after the step. */
  ghost predicate DisjointUpTo(ops: map<string, set<Addr>>, names: seq<string>, i: nat)
    requires i <= |names| && Elems(names) <= ops.Keys
  {
    forall j, k :: 0 <= j < k < i ==> ops[names[j]] !! ops[names[k]]
  }

  lemma DisjointStep(ops: map<string, set<Addr>>, names: seq<string>, i: nat)
    requires i < |names| && Elems(names) <= ops.Keys
    requires DisjointUpTo(ops, names, i)
    requires ops[names[i]] !! OwnedUpTo(ops, names, i)
    ensures DisjointUpTo(ops, names, i + 1)
    ensures OwnedUpTo(ops, names, i + 1) == OwnedUpTo(ops, names, i) + ops[names[i]]
  {
    forall j, k | 0 <= j < k < i + 1 ensures ops[names[j]] !! ops[names[k]] {
      if k == i {
        forall a | a in ops[names[j]] ensures a !in ops[names[i]] {
          assert a in OwnedUpTo(ops, names, i);
        }
      }
    }
  }

  /** What the loop of phase 1 knows after the first `i` names. */
  ghost predicate OwnersSoFar(ops: map<string, set<Addr>>, names: seq<string>, i: nat, owner: map<Addr, string>)
    requires i <= |names| && Elems(names) <= ops.Keys
  {
    && DisjointUpTo(ops, names, i)
    && owner.Keys == OwnedUpTo(ops, names, i)
    && forall a :: a in owner ==> owner[a] in Elems(names[..i]) && a in ops[owner[a]]
  }

  lemma OwnersStep(ops: map<string, set<Addr>>, names: seq<string>, i: nat,
                   owner: map<Addr, string>, next: map<Addr, string>)
    requires i < |names| && Elems(names) <= ops.Keys
    requires OwnersSoFar(ops, names, i, owner)
    requires ops[names[i]] !! owner.Keys && next.Keys == owner.Keys + ops[names[i]]
    requires forall a :: a in next ==> next[a] == (if a in owner then owner[a] else names[i])
    ensures OwnersSoFar(ops, names, i + 1, next)
  {
    DisjointStep(ops, names, i);
    assert names[..i + 1] == names[..i] + [names[i]];
  }

  /** A clash found at the `i`-th name is between an earlier name and that one. */
  lemma OwnersClash(ops: map<string, set<Addr>>, names: seq<string>, i: nat, owner: map<Addr, string>, e: SharedAddr)
    requires i < |names| && Elems(names) <= ops.Keys
    requires forall j, k :: 0 <= j < k < |names| ==> names[j] != names[k]
    requires OwnersSoFar(ops, names, i, owner)
    requires e.addr in ops[names[i]] && e.addr in owner && e.first == owner[e.addr] && e.second == names[i]
    ensures exists j, k :: 0 <= j < k < |names| && e.first == names[j] && e.second == names[k]
                           && e.addr in ops[names[j]] && e.addr in ops[names[k]]
    ensures !OwnersUnique(ops)
  {
    var j :| 0 <= j < i && names[j] == e.first;
    assert names[j] != names[i];
  }

  /** Once every name has claimed its addresses without a clash, owners are unique and `owner` maps them. */
  lemma OwnersComplete(ops: map<string, set<Addr>>, names: seq<string>, owner: map<Addr, string>)
    requires Elems(names) == ops.Keys
    requires OwnersSoFar(ops, names, |names|, owner)
    ensures OwnersUnique(ops) && OwnerMap(owner, ops)
  {
    forall n1, n2, a | n1 in ops && n2 in ops && a in ops[n1] && a in ops[n2] ensures n1 == n2 {
      var j :| 0 <= j < |names| && names[j] == n1;
      var k :| 0 <= k < |names| && names[k] == n2;
      assert j == k;
    }
    assert owner.Keys == Owned(ops) by {
      forall a | a in Owned(ops) ensures a in owner {
        var n :| n in ops && a in ops[n];
        var j :| 0 <= j < |names| && names[j] == n;
      }
    }
    assert names[..|names|] == names;
  }

  /**
   * Phase 1 over the names in the order given: `Ok` exactly when no address
   * is listed twice, with the owner of every listed address; otherwise a
   * clash between an earlier and a later name.
   */
  method AssignOwnersIn(ops: map<string, set<Addr>>, names: seq<string>)
    returns (r: Result<map<Addr, string>, SharedAddr>)
    requires Elems(names) == ops.Keys
    requires forall j, k :: 0 <= j < k < |names| ==> names[j] != names[k]
    ensures r.Ok? <==> OwnersUnique(ops)
    ensures r.Ok? ==> OwnerMap(r.value, ops)
    ensures r.Err? ==> exists j, k :: 0 <= j < k < |names| && r.error.first == names[j] && r.error.second == names[k]
                                      && r.error.addr in ops[names[j]] && r.error.addr in ops[names[k]]
  {
    var owner: map<Addr, string> := map[];
    for i := 0 to |names|
      invariant OwnersSoFar(ops, names, i, owner)
    {
      var name := names[i];
      var addrs := AscendingAddrs(ops[name]);
      var claimed := ClaimAddrs(owner, name, addrs);
      if claimed.Err? {
        OwnersClash(ops, names, i, owner, claimed.error);
        return Err(claimed.error);
      }
      OwnersStep(ops, names, i, owner, claimed.value);
      owner := claimed.value;
    }
    OwnersComplete(ops, names, owner);
    return Ok(owner);
  }

  /**
   * Phase 1 of `build_report_data` (src/view.rs:125-141, src/model/mod.rs:89-102):
   * names in ascending order, each claiming its addresses; the first address
   * claimed twice aborts, naming the earlier owner and the later name.
   */
  method AssignOwners(ops: map<string, set<Addr>>, lt: (string, string) -> bool)
    returns (r: Result<map<Addr, string>, SharedAddr>)
    requires StrictTotalOrder(lt)
    ensures r.Ok? <==> OwnersUnique(ops)
    ensures r.Ok? ==> OwnerMap(r.value, ops)
    ensures r.Err? ==> var e := r.error;
      && e.first in ops && e.second in ops && lt(e.first, e.second)
      && e.addr in ops[e.first] && e.addr in ops[e.second]
  {
    StrictTotalEverywhere(lt, ops.Keys);
    var names := SortedElements(ops.Keys, lt);
    AscendingFacts(names, lt);
    r := AssignOwnersIn(ops, names);
  }

  /** With owners unique, the owner map is the one function that the listing allows. */
  lemma OwnerIsUnique(owner: map<Addr, string>, ops: map<string, set<Addr>>, a: Addr, n: string)
    requires OwnersUnique(ops) && OwnerMap(owner, ops)
    requires n in ops && a in ops[n]
    ensures a in owner && owner[a] == n
  {
    assert a in Owned(ops);
  }

  /** The addresses listed by the names in `done`. */
  ghost function OwnedIn(ops: map<string, set<Addr>>, done: set<string>): set<Addr> {
    set n, a | n in done && n in ops && a in ops[n] :: a
  }

  /** With no address listed twice, one more name adds its own addresses to the count of those found. */
  lemma MappedGrows(ops: map<string, set<Addr>>, done: set<string>, n: string, keys: set<Addr>)
    requires OwnersUnique(ops)
    requires n in ops && n !in done
    ensures |OwnedIn(ops, done + {n}) * keys| == |OwnedIn(ops, done) * keys| + |ops[n] * keys|
  {
    var before := OwnedIn(ops, done);
    assert OwnedIn(ops, done + {n}) == before + ops[n];
    forall a | a in before ensures a !in ops[n] {
      var k :| k in done && k in ops && a in ops[k];
    }
    assert (before + ops[n]) * keys == before * keys + ops[n] * keys;
    assert (before * keys) !! (ops[n] * keys);
  }

  /** Every name together lists the owned addresses. */
  lemma OwnedInAll(ops: map<string, set<Addr>>)
    ensures OwnedIn(ops, ops.Keys) == Owned(ops)
  {
    forall a | a in Owned(ops) ensures a in OwnedIn(ops, ops.Keys) {
      var n :| n in ops && a in ops[n];
    }
  }

  // ---------------------------------------------------------------------------
  // Child lists inverted into parent lists
  // ---------------------------------------------------------------------------

  /** `map.get(k).cloned().unwrap_or_default()`. */
  function ListOf(m: map<string, seq<string>>, k: string): seq<string> {
    if k in m then m[k] else []
  }

  /** How often `q` lists `c` as a child: how often `c` must list `q` as a parent. */
  function Mentions(children: map<string, seq<string>>, q: string, c: string): nat {
    if q in children then multiset(children[q])[c] else 0
  }

  /** Some entry lists `c` as a child. */
  ghost predicate HasParent(children: map<string, seq<string>>, c: string) {
    exists q :: q in children && c in children[q]
  }

  /** Every list of `p` is ascending. */
  ghost predicate ListsSorted(p: map<string, seq<string>>, lt: (string, string) -> bool) {
    forall c :: c in p ==> Sorted(p[c], lt)
  }

  /** A key is only ever entered together with a value. */
  ghost predicate NoEmptyList(p: map<string, seq<string>>) {
    forall c :: c in p ==> p[c] != []
  }

  /** `q` may be pushed onto any list of `p` without breaking its order. */
  ghost predicate Pushable(p: map<string, seq<string>>, q: string, lt: (string, string) -> bool) {
    && !lt(q, q)
    && forall c, x :: c in p && x in p[c] ==> !lt(q, x)
  }

  /** `p` is `parents` with `q` pushed once for every child among `kids`. */
  ghost predicate PushedFor(p: map<string, seq<string>>, parents: map<string, seq<string>>, q: string, kids: seq<string>) {
    forall c, x :: (multiset(ListOf(p, c))[x] ==
      multiset(ListOf(parents, c))[x] + if x == q then multiset(kids)[c] else 0)
  }

  /** One count after one push. */
  lemma PushCountAt(p: map<string, seq<string>>, parents: map<string, seq<string>>, q: string,
                    kids: seq<string>, j: nat, c: string, x: string)
    requires j < |kids| && PushedFor(p, parents, q, kids[..j])
    ensures multiset(ListOf(p[kids[j] := ListOf(p, kids[j]) + [q]], c))[x] ==
      multiset(ListOf(parents, c))[x] + if x == q then multiset(kids[..j + 1])[c] else 0
  {
    var c0 := kids[j];
    assert kids[..j + 1] == kids[..j] + [c0];
    assert multiset(kids[..j + 1]) == multiset(kids[..j]) + multiset{c0};
    if c == c0 {
      assert multiset(ListOf(p, c0) + [q]) == multiset(ListOf(p, c0)) + multiset{q};
    }
  }

  lemma PushKeepsCounts(p: map<string, seq<string>>, parents: map<string, seq<string>>, q: string,
                        kids: seq<string>, j: nat)
    requires j < |kids| && PushedFor(p, parents, q, kids[..j])
    ensures PushedFor(p[kids[j] := ListOf(p, kids[j]) + [q]], parents, q, kids[..j + 1])
  {
    forall c, x ensures multiset(ListOf(p[kids[j] := ListOf(p, kids[j]) + [q]], c))[x] ==
      multiset(ListOf(parents, c))[x] + if x == q then multiset(kids[..j + 1])[c] else 0
    {
      PushCountAt(p, parents, q, kids, j, c, x);
    }
  }

  lemma PushKeepsOrder(p: map<string, seq<string>>, q: string, c0: string, lt: (string, string) -> bool)
    requires ListsSorted(p, lt) && Pushable(p, q, lt) && NoEmptyList(p)
    ensures var p' := p[c0 := ListOf(p, c0) + [q]];
      ListsSorted(p', lt) && Pushable(p', q, lt) && NoEmptyList(p')
  {
    var list := ListOf(p, c0) + [q];
    assert Sorted(list, lt) by {
      forall a, b | 0 <= a < b < |list| ensures !lt(list[b], list[a]) {
        if b == |list| - 1 {
          assert a < |ListOf(p, c0)|;
          assert list[a] in ListOf(p, c0);
        }
      }
    }
    var p' := p[c0 := list];
    forall c, x | c in p' && x in p'[c] ensures !lt(q, x) {
      if c == c0 {
        assert x in ListOf(p, c0) || x == q;
      }
    }
  }

  /** The inner loop: push `q` onto the parent list of each of its children. */
  method AddParent(parents: map<string, seq<string>>, q: string, kids: seq<string>, ghost lt: (string, string) -> bool)
    returns (p: map<string, seq<string>>)
    requires ListsSorted(parents, lt) && Pushable(parents, q, lt) && NoEmptyList(parents)
    ensures PushedFor(p, parents, q, kids) && ListsSorted(p, lt) && NoEmptyList(p)
  {
    p := parents;
    for j := 0 to |kids|
      invariant PushedFor(p, parents, q, kids[..j])
      invariant ListsSorted(p, lt) && Pushable(p, q, lt) && NoEmptyList(p)
    {
      PushKeepsCounts(p, parents, q, kids, j);
      PushKeepsOrder(p, q, kids[j], lt);
      p := p[kids[j] := ListOf(p, kids[j]) + [q]];
    }
    assert kids[..|kids|] == kids;
  }

  /** `parents` inverts the child lists of the keys in `done`. */
  ghost predicate InvertedFor(parents: map<string, seq<string>>, children: map<string, seq<string>>, done: set<string>)
    requires done <= children.Keys
  {
    forall c, q :: (multiset(ListOf(parents, c))[q] == if q in done then multiset(children[q])[c] else 0)
  }

  lemma InvertStep(parents: map<string, seq<string>>, next: map<string, seq<string>>,
                   children: map<string, seq<string>>, done: set<string>, q: string)
    requires done <= children.Keys && q in children && q !in done
    requires InvertedFor(parents, children, done)
    requires PushedFor(next, parents, q, children[q])
    ensures InvertedFor(next, children, done + {q})
  {
  }

  /** Pushing `q` keeps every list in order when no key done so far sorts above it. */
  lemma InvertPushable(parents: map<string, seq<string>>, children: map<string, seq<string>>,
                       done: set<string>, q: string, lt: (string, string) -> bool)
    requires done <= children.Keys && InvertedFor(parents, children, done)
    requires !lt(q, q) && forall x :: x in done ==> !lt(q, x)
    ensures Pushable(parents, q, lt)
  {
    forall c, x | c in parents && x in parents[c] ensures !lt(q, x) {
      assert x in multiset(ListOf(parents, c));
    }
  }

  /** Once every key is done, a child has a list exactly when something names it. */
  lemma InvertedKeys(parents: map<string, seq<string>>, children: map<string, seq<string>>, c: string)
    requires InvertedFor(parents, children, children.Keys) && NoEmptyList(parents)
    ensures c in parents <==> HasParent(children, c)
    ensures forall q :: multiset(ListOf(parents, c))[q] == Mentions(children, q, c)
  {
    if c in parents {
      var x := parents[c][0];
      assert x in multiset(ListOf(parents, c));
      assert c in multiset(children[x]);
    }
    if HasParent(children, c) {
      var q :| q in children && c in children[q];
      assert c in multiset(children[q]);
      assert q in multiset(ListOf(parents, c));
    }
  }

  /** The outer loop over the keys in the order given (ascending, no repeats). */
  method InvertChildrenIn(children: map<string, seq<string>>, keys: seq<string>, ghost lt: (string, string) -> bool)
    returns (parents: map<string, seq<string>>)
    requires Elems(keys) == children.Keys
    requires Sorted(keys, lt)
    requires forall i :: 0 <= i < |keys| ==> !lt(keys[i], keys[i])
    requires forall i, j :: 0 <= i < j < |keys| ==> keys[i] != keys[j]
    ensures forall c, q :: multiset(ListOf(parents, c))[q] == Mentions(children, q, c)
    ensures forall c :: c in parents <==> HasParent(children, c)
    ensures ListsSorted(parents, lt)
  {
    parents := map[];
    for i := 0 to |keys|
      invariant InvertedFor(parents, children, Elems(keys[..i]))
      invariant ListsSorted(parents, lt) && NoEmptyList(parents)
    {
      var q := keys[i];
      NotAboveLater(keys, i, lt);
      NotInPrefix(keys, i);
      ElemsOfLongerPrefix(keys, i);
      InvertPushable(parents, children, Elems(keys[..i]), q, lt);
      var next := AddParent(parents, q, children[q], lt);
      InvertStep(parents, next, children, Elems(keys[..i]), q);
      parents := next;
    }
    assert keys[..|keys|] == keys;
    forall c ensures (c in parents <==> HasParent(children, c))
      && forall q :: multiset(ListOf(parents, c))[q] == Mentions(children, q, c)
    {
      InvertedKeys(parents, children, c);
    }
  }

  /**
   * The parent lists of a child-list map: the keys walked in ascending
   * order, each pushed onto the list of every child it names
   * (src/view.rs:331-336, src/model/mod.rs:110-116 and 249-254). A key
   * appears in `c`'s list exactly as often as `c` appears in the key's child
   * list, so the lists come out ascending, repeats kept.
   */
  method InvertChildren(children: map<string, seq<string>>, lt: (string, string) -> bool)
    returns (parents: map<string, seq<string>>)
    requires StrictTotalOrder(lt)
    ensures forall c, q :: multiset(ListOf(parents, c))[q] == Mentions(children, q, c)
    ensures forall c :: c in parents <==> HasParent(children, c)
    ensures ListsSorted(parents, lt)
  {
    StrictTotalEverywhere(lt, children.Keys);
    var keys := SortedElements(children.Keys, lt);
    AscendingFacts(keys, lt);
    parents := InvertChildrenIn(children, keys, lt);
  }

  /** A value occurs in a parent list exactly when its child list names the child. */
  lemma ParentsInverse(children: map<string, seq<string>>, parents: map<string, seq<string>>, c: string, q: string)
    requires multiset(ListOf(parents, c))[q] == Mentions(children, q, c)
    ensures q in ListOf(parents, c) <==> q in children && c in children[q]
  {
    assert q in ListOf(parents, c) <==> q in multiset(ListOf(parents, c));
    if q in children {
      assert c in children[q] <==> c in multiset(children[q]);
    }
  }

  /** No child list names the same child twice (true of every list `sort` + `dedup` made). */
  ghost predicate NoRepeatedChild(children: map<string, seq<string>>) {
    forall q, c :: q in children ==> multiset(children[q])[c] <= 1
  }

  /** The entries that name `c` as a child. */
  ghost function ParentSet(children: map<string, seq<string>>, c: string): set<string> {
    set q | q in children && c in children[q]
  }

  /**
   * When no child list repeats a child, the inverted list holds each parent
   * once, so its length is the number of distinct parents.
   */
  lemma {:induction false} ParentCount(children: map<string, seq<string>>, ps: seq<string>, c: string, lt: (string, string) -> bool)
    requires StrictTotalOrder(lt) && NoRepeatedChild(children) && Sorted(ps, lt)
    requires forall q :: multiset(ps)[q] == Mentions(children, q, c)
    ensures StrictlySorted(ps, lt)
    ensures Elems(ps) == ParentSet(children, c)
    ensures |ps| == |ParentSet(children, c)|
  {
    forall i, j | 0 <= i < j < |ps| ensures ps[i] != ps[j] {
      TwoPositions(ps, i, j);
      assert multiset(ps)[ps[i]] <= 1;
    }
    StrictTotalEverywhere(lt, Elems(ps));
    SortedDistinctStrict(ps, lt);
    forall q ensures q in ps <==> q in children && c in children[q] {
      assert q in ps <==> q in multiset(ps);
      if q in children {
        assert c in children[q] <==> c in multiset(children[q]);
      }
    }
    DistinctCard(ps, lt);
  }

  // ---------------------------------------------------------------------------
  // Primary parent and the spanning tree
  // ---------------------------------------------------------------------------

  /** The first of an ascending parent list, `None` when there is none. */
  function Primary(ps: seq<string>): Option<string> {
    if ps == [] then None else Some(ps[0])
  }

  /** The rest of an ascending parent list. */
  function ExtraParents(ps: seq<string>): seq<string> {
    if ps == [] then [] else ps[1..]
  }

  /**
   * The primary parent is the smallest parent, the extra parents are the
   * others in ascending order; a node without parents has neither.
   */
  lemma PrimaryIsSmallest(ps: seq<string>, lt: (string, string) -> bool)
    requires StrictTotalOrder(lt) && Sorted(ps, lt)
    ensures Primary(ps).None? <==> ps == []
    ensures Primary(ps).None? ==> ExtraParents(ps) == []
    ensures Primary(ps).Some? ==> var p := Primary(ps).value;
      && p in ps && (forall q :: q in ps ==> !lt(q, p))
      && multiset(ExtraParents(ps)) + multiset{p} == multiset(ps)
    ensures Sorted(ExtraParents(ps), lt)
    ensures StrictlySorted(ps, lt) ==> StrictlySorted(ExtraParents(ps), lt)
    ensures StrictlySorted(ps, lt) && Primary(ps).Some? ==>
      Elems(ExtraParents(ps)) == Elems(ps) - {Primary(ps).value}
  {
    if ps != [] {
      assert ps == [ps[0]] + ps[1..];
      forall q | q in ps ensures !lt(q, ps[0]) {
        var k :| 0 <= k < |ps| && ps[k] == q;
      }
      if StrictlySorted(ps, lt) {
        forall k | 1 <= k < |ps| ensures ps[k] != ps[0] {
          assert lt(ps[0], ps[k]);
        }
      }
    }
  }

  /** The nodes whose primary parent is `p`. */
  ghost function TreeKids(primary: map<string, Option<string>>, p: string): set<string> {
    set c | c in primary && primary[c] == Some(p)
  }

  /** Some node has `p` as its primary parent. */
  ghost predicate IsPrimaryOfSome(primary: map<string, Option<string>>, p: string) {
    exists c :: c in primary && primary[c] == Some(p)
  }

  /** `pushed` holds the nodes in `done`, each under its primary parent, in ascending order. */
  ghost predicate TreeSoFar(pushed: map<string, seq<string>>, primary: map<string, Option<string>>,
                            done: set<string>, lt: (string, string) -> bool)
  {
    && (forall p :: p in pushed ==> pushed[p] != [] && StrictlySorted(pushed[p], lt))
    && (forall p, c :: (c in ListOf(pushed, p) <==> c in done && c in primary && primary[c] == Some(p)))
  }

  lemma TreeSkip(pushed: map<string, seq<string>>, primary: map<string, Option<string>>,
                 done: set<string>, child: string, lt: (string, string) -> bool)
    requires TreeSoFar(pushed, primary, done, lt) && child in primary && primary[child].None?
    ensures TreeSoFar(pushed, primary, done + {child}, lt)
  {
  }

  lemma TreePush(pushed: map<string, seq<string>>, primary: map<string, Option<string>>,
                 done: set<string>, child: string, lt: (string, string) -> bool)
    requires TreeSoFar(pushed, primary, done, lt) && child in primary && primary[child].Some?
    requires forall x :: x in done ==> lt(x, child)
    ensures var p := primary[child].value;
      TreeSoFar(pushed[p := ListOf(pushed, p) + [child]], primary, done + {child}, lt)
  {
    var p := primary[child].value;
    var list := ListOf(pushed, p);
    var grown := list + [child];
    assert StrictlySorted(grown, lt) by {
      forall a, b | 0 <= a < b < |grown| ensures lt(grown[a], grown[b]) {
        if b == |list| {
          assert grown[a] in list;
        }
      }
    }
    var next := pushed[p := grown];
    forall p', c ensures c in ListOf(next, p') <==> c in done + {child} && c in primary && primary[c] == Some(p') {
      if p' == p {
        assert ListOf(next, p') == grown;
      }
    }
  }

  /** With every node done, the lists are the tree: one per primary parent, holding its children. */
  lemma TreeComplete(pushed: map<string, seq<string>>, primary: map<string, Option<string>>,
                     lt: (string, string) -> bool, p: string)
    requires TreeSoFar(pushed, primary, primary.Keys, lt)
    ensures p in pushed <==> IsPrimaryOfSome(primary, p)
    ensures p in pushed ==> Elems(pushed[p]) == TreeKids(primary, p)
  {
    if p in pushed {
      assert ListOf(pushed, p) == pushed[p];
      var c := pushed[p][0];
      assert c in ListOf(pushed, p);
      assert c in primary && primary[c] == Some(p);
      forall c ensures c in Elems(pushed[p]) <==> c in TreeKids(primary, p) {
      }
    } else {
      forall c | c in primary ensures primary[c] != Some(p) {
        assert c !in ListOf(pushed, p);
      }
    }
  }

  /** The push loop of the spanning tree, over the nodes in the order given. */
  method PushTreeChildren(primary: map<string, Option<string>>, keys: seq<string>, ghost lt: (string, string) -> bool)
    returns (pushed: map<string, seq<string>>)
    requires Elems(keys) == primary.Keys && StrictlySorted(keys, lt)
    ensures forall p :: p in pushed <==> IsPrimaryOfSome(primary, p)
    ensures forall p :: p in pushed ==> StrictlySorted(pushed[p], lt) && Elems(pushed[p]) == TreeKids(primary, p)
  {
    pushed := map[];
    for i := 0 to |keys|
      invariant TreeSoFar(pushed, primary, Elems(keys[..i]), lt)
    {
      var child := keys[i];
      ElemsOfLongerPrefix(keys, i);
      if primary[child].Some? {
        BelowLater(keys, i, lt);
        TreePush(pushed, primary, Elems(keys[..i]), child, lt);
        var p := primary[child].value;
        pushed := pushed[p := ListOf(pushed, p) + [child]];
      } else {
        TreeSkip(pushed, primary, Elems(keys[..i]), child, lt);
      }
    }
    assert keys[..|keys|] == keys;
    forall p ensures (p in pushed <==> IsPrimaryOfSome(primary, p))
      && (p in pushed ==> Elems(pushed[p]) == TreeKids(primary, p))
    {
      TreeComplete(pushed, primary, lt, p);
    }
  }

  /** `for kids in tree_children.values_mut() { kids.sort() }`: each list sorted in place. */
  method SortEach(lists: map<string, seq<string>>, lt: (string, string) -> bool)
    returns (sorted: map<string, seq<string>>)
    requires StrictTotalOrder(lt)
    requires forall p :: p in lists ==> StrictlySorted(lists[p], lt)
    ensures sorted.Keys == lists.Keys
    ensures forall p :: p in sorted ==> StrictlySorted(sorted[p], lt) && Elems(sorted[p]) == Elems(lists[p])
  {
    sorted := lists;
    var rest := lists.Keys;
    while rest != {}
      invariant sorted.Keys == lists.Keys
      invariant forall p :: p in sorted ==> StrictlySorted(sorted[p], lt) && Elems(sorted[p]) == Elems(lists[p])
      decreases rest
    {
      var p :| p in rest;
      StrictTotalEverywhere(lt, Elems(sorted[p]));
      var list := Sort(sorted[p], lt);
      SortedPermutationStrict(sorted[p], list, lt);
      sorted := sorted[p := list];
      rest := rest - {p};
    }
  }

  /**
   * The spanning tree (src/view.rs:167-178, src/model/mod.rs:132-143): every
   * node with a primary parent is pushed under it, nodes in ascending order,
   * and each child list is then sorted. Each list holds exactly the nodes
   * whose primary parent is its key, ascending, so every node with a primary
   * parent sits in exactly one list.
   */
  method TreeChildren(primary: map<string, Option<string>>, lt: (string, string) -> bool)
    returns (tree: map<string, seq<string>>)
    requires StrictTotalOrder(lt)
    ensures forall p :: p in tree <==> IsPrimaryOfSome(primary, p)
    ensures forall p :: p in tree ==> StrictlySorted(tree[p], lt) && Elems(tree[p]) == TreeKids(primary, p)
  {
    StrictTotalEverywhere(lt, primary.Keys);
    var keys := SortedElements(primary.Keys, lt);
    var pushed := PushTreeChildren(primary, keys, lt);
    tree := SortEach(pushed, lt);
  }

  /** A node lies in the list of its own primary parent and in no other. */
  lemma TreePartition(primary: map<string, Option<string>>, tree: map<string, seq<string>>, c: string, p: string)
    requires forall q :: q in tree <==> IsPrimaryOfSome(primary, q)
    requires forall q :: q in tree ==> Elems(tree[q]) == TreeKids(primary, q)
    ensures c in ListOf(tree, p) <==> c in primary && primary[c] == Some(p)
  {
    if c in primary && primary[c] == Some(p) {
      assert IsPrimaryOfSome(primary, p);
      assert c in Elems(tree[p]);
    }
    if c in ListOf(tree, p) {
      assert c in Elems(tree[p]);
    }
  }

  /** The nodes that get no primary parent. */
  ghost function Parentless(primary: map<string, Option<string>>): set<string> {
    set n | n in primary && primary[n].None?
  }

  // ---------------------------------------------------------------------------
  // Plan-node views of a rule
  // ---------------------------------------------------------------------------

  /** `RulePlanNodeView`. */
  datatype RulePlanNodeView = RulePlanNodeView(
    fingerprint: string,
    node: Option<string>,
    nodeLabel: Option<string>,
    children: seq<string>,
    parents: seq<string>,
    shared: bool)

  /** `map.get(k).cloned()`. */
  function Lookup(m: map<string, string>, k: string): Option<string> {
    if k in m then Some(m[k]) else None
  }

  /** The child lists of a rule's plan nodes, by fingerprint. */
  function PlanChildren(rule: RuleSpec): map<string, seq<string>> {
    map fp | fp in rule.nodes :: rule.nodes[fp].children
  }

  /** What the view of plan node `fp` must hold, given its parent list. */
  ghost predicate PlanNodeViewOf(v: RulePlanNodeView, fp: string, rule: RuleSpec,
                                 labels: map<string, string>, fingerprintToNode: map<string, string>,
                                 lt: (string, string) -> bool)
    requires fp in rule.nodes
  {
    && v.fingerprint == fp
    && v.node == Lookup(fingerprintToNode, fp)
    && v.nodeLabel == (if v.node.Some? then Lookup(labels, v.node.value) else None)
    && v.children == rule.nodes[fp].children
    && (forall q :: multiset(v.parents)[q] == Mentions(PlanChildren(rule), q, fp))
    && Sorted(v.parents, lt)
    && (v.shared <==> |v.parents| > 1)
  }

  /**
   * The per-rule part of `build_rule_views` (src/view.rs:329-360,
   * src/model/mod.rs:247-278): one view per plan node, with its node name
   * and label looked up and its parents the inverse of the child lists; a
   * plan node is shared when its parent list has more than one entry.
   * `labels` maps each node name to its label.
   */
  method PlanNodeViews(rule: RuleSpec, labels: map<string, string>,
                       fingerprintToNode: map<string, string>, lt: (string, string) -> bool)
    returns (views: map<string, RulePlanNodeView>)
    requires StrictTotalOrder(lt)
    ensures views.Keys == rule.nodes.Keys
    ensures forall fp :: fp in views ==> PlanNodeViewOf(views[fp], fp, rule, labels, fingerprintToNode, lt)
  {
    var parents := InvertChildren(PlanChildren(rule), lt);
    StrictTotalEverywhere(lt, rule.nodes.Keys);
    var keys := SortedElements(rule.nodes.Keys, lt);
    views := PlanNodeViewsIn(rule, labels, fingerprintToNode, parents, keys, lt);
  }

  /** The view loop over the fingerprints in the order given. */
  method PlanNodeViewsIn(rule: RuleSpec, labels: map<string, string>, fingerprintToNode: map<string, string>,
                         parents: map<string, seq<string>>, keys: seq<string>, ghost lt: (string, string) -> bool)
    returns (views: map<string, RulePlanNodeView>)
    requires Elems(keys) == rule.nodes.Keys
    requires forall c, q :: multiset(ListOf(parents, c))[q] == Mentions(PlanChildren(rule), q, c)
    requires ListsSorted(parents, lt)
    ensures views.Keys == rule.nodes.Keys
    ensures forall fp :: fp in views ==> PlanNodeViewOf(views[fp], fp, rule, labels, fingerprintToNode, lt)
  {
    views := map[];
    for i := 0 to |keys|
      invariant views.Keys == Elems(keys[..i])
      invariant forall fp :: fp in views ==> PlanNodeViewOf(views[fp], fp, rule, labels, fingerprintToNode, lt)
    {
      var fp := keys[i];
      assert keys[..i + 1] == keys[..i] + [fp];
      var nodeName := Lookup(fingerprintToNode, fp);
      var nodeLabel := if nodeName.Some? then Lookup(labels, nodeName.value) else None;
      var parentList := ListOf(parents, fp);
      views := views[fp := RulePlanNodeView(fp, nodeName, nodeLabel, rule.nodes[fp].children,
                                            parentList, |parentList| > 1)];
    }
    assert keys[..|keys|] == keys;
  }

  /**
   * In a rule whose child lists never repeat a child (as validation leaves
   * them), a plan node is shared exactly when more than one plan node lists
   * it as a child.
   */
  lemma SharedIffManyParents(v: RulePlanNodeView, fp: string, rule: RuleSpec,
                             labels: map<string, string>, fingerprintToNode: map<string, string>,
                             lt: (string, string) -> bool)
    requires StrictTotalOrder(lt) && fp in rule.nodes
    requires NoRepeatedChild(PlanChildren(rule))
    requires PlanNodeViewOf(v, fp, rule, labels, fingerprintToNode, lt)
    ensures v.shared <==> |ParentSet(PlanChildren(rule), fp)| > 1
    ensures Elems(v.parents) == ParentSet(PlanChildren(rule), fp)
  {
    ParentCount(PlanChildren(rule), v.parents, fp, lt);
  }
}
