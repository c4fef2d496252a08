/**
 * The second-generation report builder (src/model/mod.rs,
 * `build_report_data` and `build_rule_views`): the node tree read from the
 * ops file is joined with the profile table into one view per node name, a
 * spanning tree over the DAG the child lists describe, the roots of that
 * tree, per-rule plan views with the rule's nodes outside the plan, and
 * report-wide totals.
 *
 * Node names, parent names and fingerprints are ordered as Rust orders
 * `String` (`Order.StrLess`); addresses as the derived order of `Addr`.
 */
module Model {
  import opened Wrappers
  import opened Order
  import opened Address
  import opened LogParse
  import opened OpsRules
  import opened ReportTree
  import opened Sums

  /**
   * `NodeSpec` as this builder reads it: a label, a block, an optional plan
   * fingerprint, tags, the text of the rule it belongs to, its DAG children
   * by name and the set of operator addresses it owns.
   */
  datatype NodeSpec = NodeSpec(
    nodeLabel: string,
    block: string,
    fingerprint: Option<string>,
    tags: seq<string>,
    rule: Option<string>,
    children: seq<string>,
    operators: set<Addr>)

  /** `OperatorView`: one operator found in the profile table. */
  datatype OperatorView = OperatorView(addr: seq<u32>, opName: string, activations: nat, totalActiveMs: nat)

  /** `NameNodeView`: one node name with its place in the tree and its aggregates. */
  datatype NameNodeView = NameNodeView(
    name: string,
    nodeLabel: string,
    block: string,
    fingerprint: Option<string>,
    tags: seq<string>,
    rule: Option<string>,
    children: seq<string>,
    dagChildren: seq<string>,
    extraParents: seq<string>,
    selfActivations: nat,
    selfTotalActiveMs: nat,
    operators: seq<OperatorView>)

  datatype RuleView = RuleView(text: string, root: string, nodes: map<string, RulePlanNodeView>, extras: seq<string>)

  datatype TotalsView = TotalsView(
    names: nat,
    operatorsInLog: nat,
    operatorsMapped: nat,
    totalMappedMs: nat,
    totalMappedActivations: nat)

  datatype ReportData = ReportData(
    roots: seq<string>,
    nodes: map<string, NameNodeView>,
    rules: seq<RuleView>,
    totals: TotalsView)

  /** Every row of the index sits under its own address, as the profile-table loader files it. */
  ghost predicate LogKeyed(log: map<Addr, LogRow>) {
    forall a :: a in log ==> log[a].addr == a
  }

  /** The operator sets by name, as the ownership check reads them. */
  function OperatorSets(nodes: map<string, NodeSpec>): map<string, set<Addr>> {
    map n | n in nodes :: nodes[n].operators
  }

  lemma OperatorSetOf(nodes: map<string, NodeSpec>, n: string)
    requires n in nodes
    ensures n in OperatorSets(nodes) && OperatorSets(nodes)[n] == nodes[n].operators
  {
  }

  // ---------------------------------------------------------------------------
  // Parents, primary parents, the tree and its roots
  // ---------------------------------------------------------------------------

  /** Each name's DAG children, the edges the parent lists are derived from. */
  function ChildLists(nodes: map<string, NodeSpec>): map<string, seq<string>> {
    map n | n in nodes :: nodes[n].children
  }

  /** `p` names `c` as a child and no name below `p` does: `p` is `c`'s primary parent. */
  ghost predicate IsSmallestParent(children: map<string, seq<string>>, c: string, p: string) {
    && p in ParentSet(children, c)
    && forall q :: q in ParentSet(children, c) ==> !StrLess(q, p)
  }

  /** `ps` is `c`'s parent list: ascending, each name as often as its child list names `c`. */
  ghost predicate ParentListOf(ps: seq<string>, children: map<string, seq<string>>, c: string) {
    && Sorted(ps, StrLess)
    && forall q :: multiset(ps)[q] == Mentions(children, q, c)
  }

  /** `ex` is `c`'s parent list without its primary parent, ascending, repeats kept. */
  ghost predicate ExtraParentsOf(ex: seq<string>, children: map<string, seq<string>>, c: string) {
    && Sorted(ex, StrLess)
    && forall q :: multiset(ex)[q] == Mentions(children, q, c) - (if IsSmallestParent(children, c, q) then 1 else 0)
  }

  /** `pp` is `c`'s primary parent, none when nothing names `c`. */
  ghost predicate PrimaryIs(pp: Option<string>, children: map<string, seq<string>>, c: string) {
    && (pp.None? <==> !HasParent(children, c))
    && (forall p :: pp == Some(p) <==> IsSmallestParent(children, c, p))
  }

  /**
   * The first entry of the sorted parent list is the smallest name whose
   * child list names the node, and the rest are the other entries; a node
   * nothing names has neither.
   */
  lemma PrimaryParentIsSmallest(ps: seq<string>, children: map<string, seq<string>>, c: string)
    requires ParentListOf(ps, children, c)
    ensures PrimaryIs(Primary(ps), children, c)
    ensures ExtraParentsOf(ExtraParents(ps), children, c)
  {
    StrLessTotalOrder();
    PrimaryIsSmallest(ps, StrLess);
    forall q ensures q in ps <==> q in ParentSet(children, c) {
      assert q in ps <==> q in multiset(ps);
      if q in children {
        assert c in children[q] <==> c in multiset(children[q]);
      }
    }
    if ps != [] {
      assert ps[0] in ParentSet(children, c);
    }
    if HasParent(children, c) {
      var q :| q in children && c in children[q];
      assert q in ParentSet(children, c);
    }
    forall p ensures Primary(ps) == Some(p) <==> IsSmallestParent(children, c, p) {
      if IsSmallestParent(children, c, p) {
        assert p in ps;
        assert ps[0] in ps;
      }
    }
  }

  /** What the split of the parent lists leaves: each name's primary parent and other parents. */
  ghost predicate ParentsSplit(primary: map<string, Option<string>>, extras: map<string, seq<string>>,
                               nodes: map<string, NodeSpec>)
  {
    && primary.Keys == extras.Keys == nodes.Keys
    && (forall n :: n in primary ==> PrimaryIs(primary[n], ChildLists(nodes), n))
    && (forall n :: n in extras ==> ExtraParentsOf(extras[n], ChildLists(nodes), n))
  }

  /**
   * The split loop (src/model/mod.rs:118-130): each name's parent list is
   * sorted; an empty one gives no primary parent and no extras, otherwise
   * the first entry is the primary parent and the rest the extras.
   */
  method SplitParents(nodes: map<string, NodeSpec>, parents: map<string, seq<string>>, names: seq<string>)
    returns (primary: map<string, Option<string>>, extras: map<string, seq<string>>)
    requires Elems(names) == nodes.Keys
    requires forall c, q :: multiset(ListOf(parents, c))[q] == Mentions(ChildLists(nodes), q, c)
    ensures ParentsSplit(primary, extras, nodes)
  {
    StrLessTotalOrder();
    primary, extras := map[], map[];
    for i := 0 to |names|
      invariant primary.Keys == extras.Keys == Elems(names[..i])
      invariant forall n :: n in primary ==> PrimaryIs(primary[n], ChildLists(nodes), n)
      invariant forall n :: n in extras ==> ExtraParentsOf(extras[n], ChildLists(nodes), n)
    {
      var name := names[i];
      ElemsOfLongerPrefix(names, i);
      StrictTotalEverywhere(StrLess, Elems(ListOf(parents, name)));
      var ps := Sort(ListOf(parents, name), StrLess);
      PrimaryParentIsSmallest(ps, ChildLists(nodes), name);
      if ps == [] {
        primary := primary[name := None];
        extras := extras[name := []];
      } else {
        primary := primary[name := Some(ps[0])];
        extras := extras[name := ps[1..]];
      }
    }
    assert names[..|names|] == names;
  }

  /** The names whose primary parent is `p`. */
  ghost function TreeKidsOf(nodes: map<string, NodeSpec>, p: string): set<string> {
    set c | c in nodes && IsSmallestParent(ChildLists(nodes), c, p)
  }

  /** The names nothing names as a child. */
  ghost function Orphans(nodes: map<string, NodeSpec>): set<string> {
    set n | n in nodes && !HasParent(ChildLists(nodes), n)
  }

  /**
   * The roots of the tree view (src/model/mod.rs:145-153): the given roots,
   * then each name without a primary parent not listed yet, sorted and
   * deduplicated.
   */
  method CollectRoots(declared: seq<string>, primary: map<string, Option<string>>, names: seq<string>)
    returns (roots: seq<string>)
    requires Elems(names) == primary.Keys
    ensures StrictlySorted(roots, StrLess)
    ensures Elems(roots) == Elems(declared) + Parentless(primary)
  {
    var list := declared;
    for i := 0 to |names|
      invariant Elems(list) == Elems(declared) + (set n | n in Elems(names[..i]) && n in primary && primary[n].None?)
    {
      var name := names[i];
      ElemsOfLongerPrefix(names, i);
      if primary[name].None? && name !in list {
        assert Elems(list + [name]) == Elems(list) + {name};
        list := list + [name];
      }
    }
    assert names[..|names|] == names;
    StrLessTotalOrder();
    StrictTotalEverywhere(StrLess, Elems(list));
    var sorted := Sort(list, StrLess);
    roots := Dedup(sorted, StrLess);
  }

  // ---------------------------------------------------------------------------
  // The operators of one name
  // ---------------------------------------------------------------------------

  /** The view of a profile row (src/model/mod.rs:177-182): the row's own address and figures. */
  function ViewOfRow(row: LogRow): OperatorView {
    OperatorView(row.addr.path, row.opName, row.activations, row.totalActiveMs)
  }

  function Activations(v: OperatorView): nat { v.activations }
  function ActiveMs(v: OperatorView): nat { v.totalActiveMs }

  /** The order of a name's operators (src/model/mod.rs:199-205): more time first, then ascending address. */
  function Before(u: OperatorView, v: OperatorView): bool {
    u.totalActiveMs > v.totalActiveMs || (u.totalActiveMs == v.totalActiveMs && Less(Addr(u.addr), Addr(v.addr)))
  }

  /** `v` is the view of the row the index holds at one of the addresses in `s`. */
  ghost predicate FoundView(v: OperatorView, s: set<Addr>, log: map<Addr, LogRow>) {
    Addr(v.addr) in s && Addr(v.addr) in log && v == ViewOfRow(log[Addr(v.addr)])
  }

  /**
   * `ops` holds one view for each address of `s` the index has, and none for
   * the others, in report order.
   */
  ghost predicate OperatorsOf(ops: seq<OperatorView>, s: set<Addr>, log: map<Addr, LogRow>) {
    && |ops| == |s * log.Keys|
    && StrictlySorted(ops, Before)
    && forall i :: 0 <= i < |ops| ==> FoundView(ops[i], s, log)
  }

  /** What the collecting loop has after the addresses in `seen`. */
  ghost predicate CollectedSoFar(ops: seq<OperatorView>, seen: set<Addr>, log: map<Addr, LogRow>) {
    && |ops| == |seen * log.Keys|
    && (forall j :: 0 <= j < |ops| ==> FoundView(ops[j], seen, log))
    && (forall j, k :: 0 <= j < k < |ops| ==> ops[j].addr != ops[k].addr)
  }

  lemma CollectSkip(ops: seq<OperatorView>, seen: set<Addr>, a: Addr, log: map<Addr, LogRow>)
    requires CollectedSoFar(ops, seen, log) && a !in log
    ensures CollectedSoFar(ops, seen + {a}, log)
  {
    assert (seen + {a}) * log.Keys == seen * log.Keys;
  }

  lemma CollectStep(ops: seq<OperatorView>, seen: set<Addr>, a: Addr, log: map<Addr, LogRow>, ops': seq<OperatorView>)
    requires CollectedSoFar(ops, seen, log) && LogKeyed(log)
    requires a !in seen && a in log && ops' == ops + [ViewOfRow(log[a])]
    ensures CollectedSoFar(ops', seen + {a}, log)
  {
    assert (seen + {a}) * log.Keys == seen * log.Keys + {a};
    assert Addr(ops'[|ops|].addr) == a;
    forall j | 0 <= j < |ops| ensures ops[j].addr != a.path {
      assert Addr(ops[j].addr) in seen;
    }
  }

  /** The loop's figures are the count and the sums of the views collected. */
  ghost predicate FiguresOf(ops: seq<OperatorView>, act: nat, ms: nat, mapped: nat) {
    Totals(|ops|, SumOf(ops, ActiveMs), SumOf(ops, Activations)) == Totals(mapped, ms, act)
  }

  lemma FiguresStep(ops: seq<OperatorView>, act: nat, ms: nat, mapped: nat, v: OperatorView,
                    ops': seq<OperatorView>, act': nat, ms': nat, mapped': nat)
    requires FiguresOf(ops, act, ms, mapped) && ops' == ops + [v]
    requires act' == act + v.activations && ms' == ms + v.totalActiveMs && mapped' == mapped + 1
    ensures FiguresOf(ops', act', ms', mapped')
  {
    SumOfAppend(ops, v, Activations);
    SumOfAppend(ops, v, ActiveMs);
  }

  /**
   * The inner loop of src/model/mod.rs:169-197 over the addresses in the
   * order given: an address the index has yields the view of its row, and
   * its figures are added and counted; a missing one is skipped.
   */
  method CollectOperators(addrs: seq<Addr>, log: map<Addr, LogRow>)
    returns (ops: seq<OperatorView>, act: nat, ms: nat, mapped: nat)
    requires LogKeyed(log)
    requires forall i, j :: 0 <= i < j < |addrs| ==> addrs[i] != addrs[j]
    ensures CollectedSoFar(ops, Elems(addrs), log)
    ensures FiguresOf(ops, act, ms, mapped)
  {
    ops, act, ms, mapped := [], 0, 0, 0;
    for i := 0 to |addrs|
      invariant CollectedSoFar(ops, Elems(addrs[..i]), log)
      invariant FiguresOf(ops, act, ms, mapped)
    {
      var a := addrs[i];
      NotInPrefix(addrs, i);
      ElemsOfLongerPrefix(addrs, i);
      if a in log {
        var row := log[a];
        ghost var ops0, act0, ms0, mapped0 := ops, act, ms, mapped;
        ops := ops + [OperatorView(row.addr.path, row.opName, row.activations, row.totalActiveMs)];
        act, ms, mapped := act + row.activations, ms + row.totalActiveMs, mapped + 1;
        CollectStep(ops0, Elems(addrs[..i]), a, log, ops);
        FiguresStep(ops0, act0, ms0, mapped0, ViewOfRow(row), ops, act, ms, mapped);
      } else {
        CollectSkip(ops, Elems(addrs[..i]), a, log);
      }
    }
    assert addrs[..|addrs|] == addrs;
  }

  /** A sequence without repeats holds each value at most once. */
  lemma {:induction false} DistinctCount<T>(xs: seq<T>, x: T)
    requires forall i, j :: 0 <= i < j < |xs| ==> xs[i] != xs[j]
    ensures multiset(xs)[x] <= 1
    decreases |xs|
  {
    if xs != [] {
      var n := |xs| - 1;
      DistinctCount(xs[..n], x);
      assert xs == xs[..n] + [xs[n]];
      if x == xs[n] {
        assert x !in xs[..n];
      }
    }
  }

  /** Where no two views share an address, the report order is a strict total order. */
  lemma BeforeTotal(s: set<OperatorView>)
    requires forall u, v :: u in s && v in s && u.addr == v.addr ==> u == v
    ensures StrictTotalOn(Before, s)
  {
    LessStrictTotal();
  }

  /**
   * The sort of src/model/mod.rs:199-205: the collected views in report
   * order, with the same sums.
   */
  method OrderOperators(ops: seq<OperatorView>, ghost s: set<Addr>, log: map<Addr, LogRow>)
    returns (sorted: seq<OperatorView>)
    requires CollectedSoFar(ops, s, log)
    ensures OperatorsOf(sorted, s, log)
    ensures SumOf(sorted, Activations) == SumOf(ops, Activations) && SumOf(sorted, ActiveMs) == SumOf(ops, ActiveMs)
  {
    forall u, v | u in Elems(ops) && v in Elems(ops) && u.addr == v.addr ensures u == v {
      var j :| 0 <= j < |ops| && ops[j] == u;
      var k :| 0 <= k < |ops| && ops[k] == v;
    }
    BeforeTotal(Elems(ops));
    sorted := Sort(ops, Before);
    assert |sorted| == |multiset(sorted)| == |multiset(ops)| == |ops|;
    forall i, j | 0 <= i < j < |sorted| ensures sorted[i] != sorted[j] {
      TwoPositions(sorted, i, j);
      DistinctCount(ops, sorted[i]);
    }
    SortedDistinctStrict(sorted, Before);
    forall i | 0 <= i < |sorted| ensures FoundView(sorted[i], s, log) {
      assert sorted[i] in multiset(ops);
    }
    SumOfPermutation(sorted, ops, Activations);
    SumOfPermutation(sorted, ops, ActiveMs);
  }

  /** A sequence without repeats has as many distinct elements as positions. */
  lemma {:induction false} DistinctElems<T>(xs: seq<T>)
    requires forall i, j :: 0 <= i < j < |xs| ==> xs[i] != xs[j]
    ensures |Elems(xs)| == |xs|
    decreases |xs|
  {
    if xs != [] {
      var n := |xs| - 1;
      DistinctElems(xs[..n]);
      assert Elems(xs) == Elems(xs[..n]) + {xs[n]};
    }
  }

  /**
   * Every listed address the index has yields exactly one operator view, and
   * an address it lacks yields none.
   */
  lemma OneViewPerFoundAddr(ops: seq<OperatorView>, s: set<Addr>, log: map<Addr, LogRow>, a: Addr)
    requires OperatorsOf(ops, s, log)
    ensures (a in s && a in log) <==> exists i :: 0 <= i < |ops| && ops[i].addr == a.path
    ensures forall i, j :: 0 <= i < |ops| && 0 <= j < |ops| && ops[i].addr == ops[j].addr ==> i == j
  {
    LessStrictTotal();
    forall i, j | 0 <= i < |ops| && 0 <= j < |ops| && ops[i].addr == ops[j].addr ensures i == j {
      assert ops[i] == ops[j];
    }
    var xs := seq(|ops|, i requires 0 <= i < |ops| => Addr(ops[i].addr));
    DistinctElems(xs);
    assert Elems(xs) <= s * log.Keys;
    if a in s && a in log && a !in Elems(xs) {
      SubsetCard(Elems(xs), s * log.Keys - {a});
    }
    if a in Elems(xs) {
      var i :| 0 <= i < |xs| && xs[i] == a;
      assert ops[i].addr == a.path;
    }
    if exists i :: 0 <= i < |ops| && ops[i].addr == a.path {
      var i :| 0 <= i < |ops| && ops[i].addr == a.path;
      assert xs[i] == a;
    }
  }

  /** What the view of name `n` holds, given its tree children and extra parents. */
  ghost predicate NodeViewOf(v: NameNodeView, n: string, spec: NodeSpec, children: seq<string>, extras: seq<string>,
                             log: map<Addr, LogRow>)
  {
    && v.name == n && v.nodeLabel == spec.nodeLabel && v.block == spec.block
    && v.fingerprint == spec.fingerprint && v.tags == spec.tags && v.rule == spec.rule
    && v.children == children && v.dagChildren == spec.children && v.extraParents == extras
    && OperatorsOf(v.operators, spec.operators, log)
    && v.selfActivations == SumOf(v.operators, Activations)
    && v.selfTotalActiveMs == SumOf(v.operators, ActiveMs)
  }

  /**
   * The body of the per-name loop (src/model/mod.rs:162-223): the name's
   * addresses ascending, the views of those the index has, sorted, and their
   * sums; `mapped` counts the views.
   */
  method NodeView(name: string, spec: NodeSpec, children: seq<string>, extras: seq<string>, log: map<Addr, LogRow>)
    returns (v: NameNodeView, mapped: nat)
    requires LogKeyed(log)
    ensures NodeViewOf(v, name, spec, children, extras, log)
    ensures mapped == |spec.operators * log.Keys|
  {
    var addrs := AscendingAddrs(spec.operators);
    var found, act, ms;
    found, act, ms, mapped := CollectOperators(addrs, log);
    var ops := OrderOperators(found, spec.operators, log);
    v := NameNodeView(name, spec.nodeLabel, spec.block, spec.fingerprint, spec.tags, spec.rule,
                      children, spec.children, extras, act, ms, ops);
  }

  // ---------------------------------------------------------------------------
  // The per-name loop and the totals
  // ---------------------------------------------------------------------------

  function NodeMs(v: NameNodeView): nat { v.selfTotalActiveMs }
  function NodeActivations(v: NameNodeView): nat { v.selfActivations }

  /** The view held for `n`, if any, is the view of name `n`. */
  ghost predicate ViewOk(views: map<string, NameNodeView>, n: string, nodes: map<string, NodeSpec>,
                         tree: map<string, seq<string>>, extras: map<string, seq<string>>, log: map<Addr, LogRow>)
  {
    n in views ==> (n in nodes && NodeViewOf(views[n], n, nodes[n], ListOf(tree, n), ListOf(extras, n), log))
  }

  /** Every view in `views` is the view of its name. */
  ghost predicate ViewsOf(views: map<string, NameNodeView>, nodes: map<string, NodeSpec>,
                          tree: map<string, seq<string>>, extras: map<string, seq<string>>, log: map<Addr, LogRow>)
  {
    forall n :: ViewOk(views, n, nodes, tree, extras, log)
  }

  lemma ViewsOfGrow(views: map<string, NameNodeView>, nodes: map<string, NodeSpec>,
                    tree: map<string, seq<string>>, extras: map<string, seq<string>>, log: map<Addr, LogRow>,
                    n: string, v: NameNodeView)
    requires ViewsOf(views, nodes, tree, extras, log) && n in nodes
    requires NodeViewOf(v, n, nodes[n], ListOf(tree, n), ListOf(extras, n), log)
    ensures ViewsOf(views[n := v], nodes, tree, extras, log)
  {
    var grown := views[n := v];
    forall k ensures ViewOk(grown, k, nodes, tree, extras, log) {
      assert ViewOk(views, k, nodes, tree, extras, log);
    }
  }

  /** The views the per-name loop has built for the names in `done`. */
  ghost predicate ViewsSoFar(views: map<string, NameNodeView>, done: set<string>, nodes: map<string, NodeSpec>,
                             tree: map<string, seq<string>>, extras: map<string, seq<string>>, log: map<Addr, LogRow>)
  {
    && views.Keys == done
    && ViewsOf(views, nodes, tree, extras, log)
  }

  /** One turn of the per-name loop: the view of `n` joins the map, and `n` the names done. */
  method NameTurn(views: map<string, NameNodeView>, ghost done: set<string>, ghost done': set<string>, n: string,
                  nodes: map<string, NodeSpec>, tree: map<string, seq<string>>, extras: map<string, seq<string>>,
                  log: map<Addr, LogRow>)
    returns (views': map<string, NameNodeView>, v: NameNodeView, m: nat)
    requires n in nodes && n !in done && done' == done + {n} && LogKeyed(log)
    requires ViewsSoFar(views, done, nodes, tree, extras, log)
    ensures ViewsSoFar(views', done', nodes, tree, extras, log)
    ensures n !in views && views' == views[n := v]
    ensures m == |nodes[n].operators * log.Keys|
  {
    v, m := NodeView(n, nodes[n], ListOf(tree, n), ListOf(extras, n), log);
    ViewsOfGrow(views, nodes, tree, extras, log, n, v);
    views' := views[n := v];
  }

  /** The three running totals of the per-name loop. */
  datatype Totals = Totals(mapped: nat, ms: nat, act: nat)

  /** The totals over the views built for the names in `done`. */
  ghost predicate TotalsSoFar(views: map<string, NameNodeView>, done: set<string>, ops: map<string, set<Addr>>,
                              keys: set<Addr>, mapped: nat, ms: nat, act: nat)
  {
    Totals(|OwnedIn(ops, done) * keys|, MapSum(views, NodeMs), MapSum(views, NodeActivations))
      == Totals(mapped, ms, act)
  }

  /** The views built so far, listed in the order of their names in `vs`. */
  ghost predicate Listed(views: map<string, NameNodeView>, vs: seq<NameNodeView>, names: seq<string>, i: nat)
    requires i <= |names|
  {
    |vs| == i && forall j :: 0 <= j < i ==> names[j] in views && views[names[j]] == vs[j]
  }

  lemma ListedStep(views: map<string, NameNodeView>, vs: seq<NameNodeView>, names: seq<string>, i: nat,
                   v: NameNodeView, views': map<string, NameNodeView>, vs': seq<NameNodeView>)
    requires i < |names| && names[i] !in views
    requires Listed(views, vs, names, i)
    requires views' == views[names[i] := v] && vs' == vs + [v]
    ensures Listed(views', vs', names, i + 1)
  {
  }

  /** The running totals kept by the loop, summed over the list `vs`. */
  ghost predicate RunningSoFar(vs: seq<NameNodeView>, done: set<string>, ops: map<string, set<Addr>>,
                               keys: set<Addr>, mapped: nat, ms: nat, act: nat)
  {
    Totals(|OwnedIn(ops, done) * keys|, SumOf(vs, NodeMs), SumOf(vs, NodeActivations)) == Totals(mapped, ms, act)
  }

  /**
   * With no address listed by two names, one more name adds its view's
   * figures to the sums and its own found addresses to the count.
   */
  lemma RunningStep(vs: seq<NameNodeView>, done: set<string>, ops: map<string, set<Addr>>, keys: set<Addr>,
                    mapped: nat, ms: nat, act: nat, n: string, v: NameNodeView, m: nat,
                    vs': seq<NameNodeView>, done': set<string>, mapped': nat, ms': nat, act': nat)
    requires OwnersUnique(ops) && n in ops && n !in done
    requires RunningSoFar(vs, done, ops, keys, mapped, ms, act)
    requires m == |ops[n] * keys|
    requires vs' == vs + [v] && done' == done + {n}
    requires mapped' == mapped + m && ms' == ms + v.selfTotalActiveMs && act' == act + v.selfActivations
    ensures RunningSoFar(vs', done', ops, keys, mapped', ms', act')
  {
    MappedGrows(ops, done, n, keys);
    SumOfAppend(vs, v, NodeMs);
    SumOfAppend(vs, v, NodeActivations);
  }

  /** Once every name is listed, the sums over the list are the sums over the map of views. */
  lemma TotalsFrom(views: map<string, NameNodeView>, vs: seq<NameNodeView>, names: seq<string>,
                   ops: map<string, set<Addr>>, keys: set<Addr>, mapped: nat, ms: nat, act: nat)
    requires forall i, j :: 0 <= i < j < |names| ==> names[i] != names[j]
    requires views.Keys == Elems(names)
    requires Listed(views, vs, names, |names|)
    requires RunningSoFar(vs, Elems(names), ops, keys, mapped, ms, act)
    ensures TotalsSoFar(views, Elems(names), ops, keys, mapped, ms, act)
  {
    MapSumOfSeq(views, names, vs, NodeMs);
    MapSumOfSeq(views, names, vs, NodeActivations);
  }

  /**
   * The per-name loop (src/model/mod.rs:156-224) over the names in the order
   * given, with the report-wide totals of src/model/mod.rs:158-160 kept name
   * by name.
   */
  method NodeViews(nodes: map<string, NodeSpec>, names: seq<string>, tree: map<string, seq<string>>,
                   extras: map<string, seq<string>>, log: map<Addr, LogRow>)
    returns (views: map<string, NameNodeView>, mapped: nat, ms: nat, act: nat)
    requires Elems(names) == nodes.Keys
    requires forall i, j :: 0 <= i < j < |names| ==> names[i] != names[j]
    requires LogKeyed(log) && OwnersUnique(OperatorSets(nodes))
    ensures ViewsSoFar(views, nodes.Keys, nodes, tree, extras, log)
    ensures TotalsSoFar(views, nodes.Keys, OperatorSets(nodes), log.Keys, mapped, ms, act)
  {
    views, mapped, ms, act := map[], 0, 0, 0;
    ghost var done: set<string> := {};
    ghost var vs: seq<NameNodeView> := [];
    for i := 0 to |names|
      invariant done == Elems(names[..i])
      invariant RunningSoFar(vs, done, OperatorSets(nodes), log.Keys, mapped, ms, act)
      invariant Listed(views, vs, names, i)
      invariant ViewsSoFar(views, done, nodes, tree, extras, log)
    {
      NotInPrefix(names, i);
      ElemsOfLongerPrefix(names, i);
      ghost var views0, vs0, done0, mapped0, ms0, act0 := views, vs, done, mapped, ms, act;
      done := done + {names[i]};
      var next, v, m := NameTurn(views, done0, done, names[i], nodes, tree, extras, log);
      views, vs := next, vs + [v];
      OperatorSetOf(nodes, names[i]);
      ListedStep(views0, vs0, names, i, v, views, vs);
      mapped, ms, act := mapped + m, ms + v.selfTotalActiveMs, act + v.selfActivations;
      RunningStep(vs0, done0, OperatorSets(nodes), log.Keys, mapped0, ms0, act0, names[i], v, m,
                  vs, done, mapped, ms, act);
    }
    assert names[..|names|] == names;
    TotalsFrom(views, vs, names, OperatorSets(nodes), log.Keys, mapped, ms, act);
  }

  // ---------------------------------------------------------------------------
  // Rule views
  // ---------------------------------------------------------------------------

  /** Each name's label, for the plan-node views. */
  function Labels(nodes: map<string, NodeSpec>): map<string, string> {
    map n | n in nodes :: nodes[n].nodeLabel
  }

  /** `spec` belongs to the rule's text, yet its fingerprint (if any) is not a plan node of the rule. */
  predicate OutsidePlan(spec: NodeSpec, rule: RuleSpec) {
    spec.rule == Some(rule.text) && !(spec.fingerprint.Some? && spec.fingerprint.value in rule.nodes)
  }

  /** The names of a rule that lie outside its plan. */
  ghost function ExtrasOf(nodes: map<string, NodeSpec>, rule: RuleSpec): set<string> {
    set n | n in nodes && OutsidePlan(nodes[n], rule)
  }

  /**
   * The extras of one rule (src/model/mod.rs:280-299): the names filtered in
   * ascending order, then sorted.
   */
  method RuleExtras(nodes: map<string, NodeSpec>, names: seq<string>, rule: RuleSpec) returns (extras: seq<string>)
    requires Elems(names) == nodes.Keys && StrictlySorted(names, StrLess)
    ensures StrictlySorted(extras, StrLess)
    ensures Elems(extras) == ExtrasOf(nodes, rule)
  {
    var keep := (n: string) => n in nodes && OutsidePlan(nodes[n], rule);
    var kept := Filter(names, keep);
    FilterStrictlySorted(names, keep, StrLess);
    forall n ensures n in kept <==> n in ExtrasOf(nodes, rule) {
      if n in ExtrasOf(nodes, rule) {
        assert n in Elems(names);
        var i :| 0 <= i < |names| && names[i] == n;
        assert keep(names[i]);
      }
      if n in kept {
        var i :| 0 <= i < |kept| && kept[i] == n;
        assert keep(kept[i]);
      }
    }
    StrLessTotalOrder();
    StrictTotalEverywhere(StrLess, Elems(kept));
    extras := Sort(kept, StrLess);
    SortedPermutationStrict(kept, extras, StrLess);
  }

  /** What the view of one rule holds. */
  ghost predicate RuleViewOf(v: RuleView, rule: RuleSpec, nodes: map<string, NodeSpec>,
                             fingerprintToNode: map<string, string>)
  {
    && v.text == rule.text && v.root == rule.root
    && v.nodes.Keys == rule.nodes.Keys
    && (forall fp :: fp in v.nodes ==> PlanNodeViewOf(v.nodes[fp], fp, rule, Labels(nodes), fingerprintToNode, StrLess))
    && StrictlySorted(v.extras, StrLess) && Elems(v.extras) == ExtrasOf(nodes, rule)
  }

  /** `build_rule_views` (src/model/mod.rs:240-310): one view per rule, in the rules' order. */
  method BuildRuleViews(rules: seq<RuleSpec>, nodes: map<string, NodeSpec>, names: seq<string>,
                        fingerprintToNode: map<string, string>)
    returns (views: seq<RuleView>)
    requires Elems(names) == nodes.Keys && StrictlySorted(names, StrLess)
    ensures |views| == |rules|
    ensures forall i :: 0 <= i < |rules| ==> RuleViewOf(views[i], rules[i], nodes, fingerprintToNode)
  {
    StrLessTotalOrder();
    var labels := Labels(nodes);
    views := [];
    for i := 0 to |rules|
      invariant |views| == i
      invariant forall j :: 0 <= j < i ==> RuleViewOf(views[j], rules[j], nodes, fingerprintToNode)
    {
      var planViews := PlanNodeViews(rules[i], labels, fingerprintToNode, StrLess);
      var extras := RuleExtras(nodes, names, rules[i]);
      views := views + [RuleView(rules[i].text, rules[i].root, planViews, extras)];
    }
  }

  // ---------------------------------------------------------------------------
  // The whole report
  // ---------------------------------------------------------------------------

  /** What the view of name `n` holds in a report built from these inputs. */
  ghost predicate NodeInReport(v: NameNodeView, n: string, nodes: map<string, NodeSpec>, log: map<Addr, LogRow>)
    requires n in nodes
  {
    && NodeViewOf(v, n, nodes[n], v.children, v.extraParents, log)
    && StrictlySorted(v.children, StrLess) && Elems(v.children) == TreeKidsOf(nodes, n)
    && ExtraParentsOf(v.extraParents, ChildLists(nodes), n)
  }

  /** The totals: counts of names, of profile rows and of listed addresses found, and sums over the names. */
  ghost predicate TotalsInReport(d: ReportData, nodes: map<string, NodeSpec>, log: map<Addr, LogRow>) {
    && d.totals.names == |nodes| && d.totals.operatorsInLog == |log|
    && d.totals.operatorsMapped == |Owned(OperatorSets(nodes)) * log.Keys|
    && d.totals.totalMappedMs == MapSum(d.nodes, NodeMs)
    && d.totals.totalMappedActivations == MapSum(d.nodes, NodeActivations)
  }

  /** Everything a successful `build_report_data` promises about its result. */
  ghost predicate IsReport(d: ReportData, nodes: map<string, NodeSpec>, roots: seq<string>, rules: seq<RuleSpec>,
                           fingerprintToNode: map<string, string>, log: map<Addr, LogRow>)
  {
    && d.nodes.Keys == nodes.Keys
    && (forall n :: n in d.nodes ==> NodeInReport(d.nodes[n], n, nodes, log))
    && StrictlySorted(d.roots, StrLess) && Elems(d.roots) == Elems(roots) + Orphans(nodes)
    && |d.rules| == |rules|
    && (forall i :: 0 <= i < |rules| ==> RuleViewOf(d.rules[i], rules[i], nodes, fingerprintToNode))
    && TotalsInReport(d, nodes, log)
  }

  /** The spanning tree as `ReportTree.TreeChildren` leaves it. */
  ghost predicate TreeOf(tree: map<string, seq<string>>, primary: map<string, Option<string>>) {
    && (forall p :: p in tree <==> IsPrimaryOfSome(primary, p))
    && (forall p :: p in tree ==> StrictlySorted(tree[p], StrLess) && Elems(tree[p]) == TreeKids(primary, p))
  }

  /** One name's tree children, as the report states them. */
  lemma TreeListAssembled(nodes: map<string, NodeSpec>, primary: map<string, Option<string>>,
                          extras: map<string, seq<string>>, tree: map<string, seq<string>>, p: string)
    requires ParentsSplit(primary, extras, nodes) && TreeOf(tree, primary)
    ensures StrictlySorted(ListOf(tree, p), StrLess) && Elems(ListOf(tree, p)) == TreeKidsOf(nodes, p)
  {
    forall c ensures c in ListOf(tree, p) <==> c in TreeKidsOf(nodes, p) {
      TreePartition(primary, tree, c, p);
      if c in primary {
        assert PrimaryIs(primary[c], ChildLists(nodes), c);
      }
    }
  }

  lemma NodesAssembled(d: ReportData, nodes: map<string, NodeSpec>, log: map<Addr, LogRow>,
                       primary: map<string, Option<string>>, extras: map<string, seq<string>>,
                       tree: map<string, seq<string>>)
    requires ParentsSplit(primary, extras, nodes) && TreeOf(tree, primary)
    requires ViewsSoFar(d.nodes, nodes.Keys, nodes, tree, extras, log)
    ensures forall n :: n in d.nodes ==> NodeInReport(d.nodes[n], n, nodes, log)
  {
    forall n | n in d.nodes ensures NodeInReport(d.nodes[n], n, nodes, log) {
      assert ViewOk(d.nodes, n, nodes, tree, extras, log);
      assert ExtraParentsOf(extras[n], ChildLists(nodes), n);
      TreeListAssembled(nodes, primary, extras, tree, n);
    }
  }

  lemma RootsAssembled(nodes: map<string, NodeSpec>, primary: map<string, Option<string>>,
                       extras: map<string, seq<string>>)
    requires ParentsSplit(primary, extras, nodes)
    ensures Parentless(primary) == Orphans(nodes)
  {
    forall n | n in primary ensures primary[n].None? <==> !HasParent(ChildLists(nodes), n) {
      assert PrimaryIs(primary[n], ChildLists(nodes), n);
    }
  }

  lemma TotalsAssembled(d: ReportData, nodes: map<string, NodeSpec>, log: map<Addr, LogRow>,
                        mapped: nat, ms: nat, act: nat)
    requires TotalsSoFar(d.nodes, nodes.Keys, OperatorSets(nodes), log.Keys, mapped, ms, act)
    requires d.totals == TotalsView(|nodes|, |log|, mapped, ms, act)
    ensures TotalsInReport(d, nodes, log)
  {
    assert OperatorSets(nodes).Keys == nodes.Keys;
    OwnedInAll(OperatorSets(nodes));
  }

  /**
   * `build_report_data` (src/model/mod.rs:82-238). It fails exactly when two
   * names list one address, naming the address and both names (the earlier
   * one first); otherwise the report is as `IsReport` describes it.
   */
  method BuildReportData(nodes: map<string, NodeSpec>, roots: seq<string>, rules: seq<RuleSpec>,
                         fingerprintToNode: map<string, string>, log: map<Addr, LogRow>)
    returns (r: Result<ReportData, SharedAddr>)
    requires LogKeyed(log)
    ensures r.Ok? <==> OwnersUnique(OperatorSets(nodes))
    ensures r.Err? ==> var e := r.error;
      && e.first in nodes && e.second in nodes && StrLess(e.first, e.second)
      && e.addr in nodes[e.first].operators && e.addr in nodes[e.second].operators
    ensures r.Ok? ==> IsReport(r.value, nodes, roots, rules, fingerprintToNode, log)
  {
    StrLessTotalOrder();
    var owners := AssignOwners(OperatorSets(nodes), StrLess);
    if owners.Err? {
      return Err(owners.error);
    }
    var report := BuildChecked(nodes, roots, rules, fingerprintToNode, log);
    return Ok(report);
  }

  /** Everything after the ownership check. */
  method BuildChecked(nodes: map<string, NodeSpec>, roots: seq<string>, rules: seq<RuleSpec>,
                      fingerprintToNode: map<string, string>, log: map<Addr, LogRow>)
    returns (d: ReportData)
    requires LogKeyed(log) && OwnersUnique(OperatorSets(nodes))
    ensures IsReport(d, nodes, roots, rules, fingerprintToNode, log)
  {
    StrLessTotalOrder();
    var names := AscendingNames(nodes.Keys);
    var parents := InvertChildren(ChildLists(nodes), StrLess);
    var primary, extras := SplitParents(nodes, parents, names);
    var tree := TreeChildren(primary, StrLess);
    var rootList := CollectRoots(roots, primary, names);
    var views, mapped, ms, act := NodeViews(nodes, names, tree, extras, log);
    var ruleViews := BuildRuleViews(rules, nodes, names, fingerprintToNode);
    d := ReportData(rootList, views, ruleViews, TotalsView(|nodes|, |log|, mapped, ms, act));
    NodesAssembled(d, nodes, log, primary, extras, tree);
    RootsAssembled(nodes, primary, extras);
    TotalsAssembled(d, nodes, log, mapped, ms, act);
  }

  // ---------------------------------------------------------------------------
  // What the report promises
  // ---------------------------------------------------------------------------

  /** A non-empty set of names has a smallest one. */
  lemma {:induction false} SmallestExists(s: set<string>)
    requires s != {}
    ensures exists m :: m in s && forall q :: q in s ==> !StrLess(q, m)
    decreases |s|
  {
    StrLessTotalOrder();
    var x :| x in s;
    var rest := s - {x};
    if rest == {} {
      assert s == {x};
    } else {
      SmallestExists(rest);
      var m :| m in rest && forall q :: q in rest ==> !StrLess(q, m);
      if StrLess(x, m) {
        assert forall q :: q in s ==> !StrLess(q, x);
      } else {
        assert forall q :: q in s ==> !StrLess(q, m);
      }
    }
  }

  /**
   * The tree lists of a report partition the names with a parent: such a
   * name sits in the children of exactly one name, its smallest parent; a
   * name nothing names sits in no list.
   */
  lemma TreePartitionsNames(views: map<string, NameNodeView>, nodes: map<string, NodeSpec>, c: string)
    requires views.Keys == nodes.Keys && c in nodes
    requires forall p :: p in views ==> Elems(views[p].children) == TreeKidsOf(nodes, p)
    ensures HasParent(ChildLists(nodes), c) <==> exists p :: p in views && c in views[p].children
    ensures forall p1, p2 ::
      p1 in views && p2 in views && c in views[p1].children && c in views[p2].children ==> p1 == p2
  {
    StrLessTotalOrder();
    var C := ChildLists(nodes);
    if HasParent(C, c) {
      var q :| q in C && c in C[q];
      assert q in ParentSet(C, c);
      SmallestExists(ParentSet(C, c));
      var p :| p in ParentSet(C, c) && forall q :: q in ParentSet(C, c) ==> !StrLess(q, p);
      assert IsSmallestParent(C, c, p);
      assert c in TreeKidsOf(nodes, p);
    }
    forall p | p in views && c in views[p].children ensures HasParent(C, c) {
      assert c in TreeKidsOf(nodes, p);
    }
    forall p1, p2 | p1 in views && p2 in views && c in views[p1].children && c in views[p2].children
      ensures p1 == p2
    {
      assert c in TreeKidsOf(nodes, p1) && c in TreeKidsOf(nodes, p2);
    }
  }
}
