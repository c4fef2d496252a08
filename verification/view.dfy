/**
 * The first-generation report builder (src/view.rs, `build_report_data` and
 * `build_rule_views`): the validated topology is joined with the time and
 * memory logs into one view per node name, a spanning tree over the DAG, the
 * roots of that tree, per-rule plan views and report-wide totals.
 *
 * Node names, parent names and fingerprints are ordered as Rust orders
 * `String` (`Order.StrLess`); addresses as the derived order of `Addr`.
 */
module View {
  import opened Wrappers
  import opened Order
  import opened Text
  import opened Address
  import opened Log
  import opened OpsNodes
  import opened OpsRules
  import opened ReportTree
  import opened Sums

  /** `OperatorView`: one operator of a name, with its time figures and memory figures. */
  datatype OperatorView = OperatorView(
    addr: seq<u32>,
    opName: string,
    activations: nat,
    totalActiveMs: nat,
    batchedIn: Option<nat>,
    merges: Option<nat>,
    mergeIn: Option<nat>,
    mergeOut: Option<nat>,
    dropped: Option<nat>)

  /** `NameNodeView`: one node name with its place in the tree and its aggregates. */
  datatype NameNodeView = NameNodeView(
    name: string,
    nodeLabel: string,
    block: string,
    fingerprint: Option<string>,
    tags: seq<string>,
    children: seq<string>,
    dagParents: seq<string>,
    extraParents: seq<string>,
    selfActivations: nat,
    selfTotalActiveMs: nat,
    selfBatchedIn: nat,
    selfMerges: nat,
    selfMergeIn: nat,
    selfMergeOut: nat,
    selfDropped: nat,
    hasMemoryData: bool,
    operators: seq<OperatorView>)

  datatype RuleView = RuleView(text: string, root: string, nodes: map<string, RulePlanNodeView>)

  datatype TotalsView = TotalsView(
    names: nat,
    operatorsInTime: nat,
    operatorsMapped: nat,
    totalMappedMs: nat,
    totalMappedActivations: nat,
    totalBatchedIn: nat)

  datatype ReportData = ReportData(
    roots: seq<string>,
    nodes: map<string, NameNodeView>,
    rules: seq<RuleView>,
    totals: TotalsView)

  /** The two ways `build_report_data` bails, carrying what its messages name. */
  datatype ViewError =
    | OpNameMismatch(addr: Addr, timeName: string, memoryName: string)
    | AddrShared(clash: SharedAddr)

  // ---------------------------------------------------------------------------
  // Phase 0: the two logs agree on operator names
  // ---------------------------------------------------------------------------

  /** Wherever an address has a row in both logs, both rows name the same operator. */
  ghost predicate OpNamesAgree(time: map<Addr, TimeRow>, memory: map<Addr, MemoryRow>) {
    forall a :: a in memory && a in time ==> time[a].opName == memory[a].opName
  }

  /** `e` reports a real disagreement between the logs. */
  ghost predicate MismatchAt(e: ViewError, time: map<Addr, TimeRow>, memory: map<Addr, MemoryRow>) {
    && e.OpNameMismatch? && e.addr in time && e.addr in memory
    && e.timeName == time[e.addr].opName && e.memoryName == memory[e.addr].opName
    && e.timeName != e.memoryName
  }

  /** The memory rows walked in the order given; the first disagreement is reported. */
  method CheckOpNamesIn(time: map<Addr, TimeRow>, memory: map<Addr, MemoryRow>, addrs: seq<Addr>)
    returns (r: Option<ViewError>)
    requires Elems(addrs) == memory.Keys
    requires StrictTotalOn(Less, Elems(addrs)) && StrictlySorted(addrs, Less)
    ensures r.None? <==> OpNamesAgree(time, memory)
    ensures r.Some? ==> MismatchAt(r.value, time, memory)
    ensures r.Some? ==> forall b :: b in memory && b in time && Less(b, r.value.addr) ==>
      time[b].opName == memory[b].opName
  {
    for i := 0 to |addrs|
      invariant forall j :: 0 <= j < i && addrs[j] in time ==> time[addrs[j]].opName == memory[addrs[j]].opName
    {
      var a := addrs[i];
      if a in time && time[a].opName != memory[a].opName {
        forall b | b in memory && b in time && Less(b, a) ensures time[b].opName == memory[b].opName {
          BeforeInSorted(addrs, Less, i, b);
        }
        return Some(OpNameMismatch(a, time[a].opName, memory[a].opName));
      }
    }
    forall a | a in memory && a in time ensures time[a].opName == memory[a].opName {
      var j :| 0 <= j < |addrs| && addrs[j] == a;
    }
    return None;
  }

  /**
   * Phase 0 (src/view.rs:110-123): the memory log in ascending address order;
   * the first address whose time row names another operator aborts. Nothing
   * is reported exactly when the logs agree, and what is reported is the
   * smallest disagreeing address.
   */
  method CheckOpNames(time: map<Addr, TimeRow>, memory: map<Addr, MemoryRow>) returns (r: Option<ViewError>)
    ensures r.None? <==> OpNamesAgree(time, memory)
    ensures r.Some? ==> MismatchAt(r.value, time, memory)
    ensures r.Some? ==> forall b :: b in memory && b in time && Less(b, r.value.addr) ==>
      time[b].opName == memory[b].opName
  {
    LessTotalOn(memory.Keys);
    var addrs := SortedElements(memory.Keys, Less);
    r := CheckOpNamesIn(time, memory, addrs);
  }

  // ---------------------------------------------------------------------------
  // Phase 2: parent names, primary parents, the tree and its roots
  // ---------------------------------------------------------------------------

  /** The operator sets by name, as phase 1 reads them. */
  function OperatorSets(nodes: map<string, NodeSpec>): map<string, set<Addr>> {
    map n | n in nodes :: nodes[n].operators
  }

  lemma OperatorSetOf(nodes: map<string, NodeSpec>, n: string)
    requires n in nodes
    ensures n in OperatorSets(nodes) && OperatorSets(nodes)[n] == nodes[n].operators
  {
  }

  /** `spec.parents.iter().map(|p| p.to_string())`. */
  function ParentNames(ps: seq<u32>): seq<string> {
    seq(|ps|, i requires 0 <= i < |ps| => NatToString(ps[i]))
  }

  /** The decimal names of a node's parent ids. */
  ghost function ParentNameSet(ps: seq<u32>): set<string> {
    set p | p in ps :: NatToString(p)
  }

  /** One node's parent names, sorted and deduplicated (src/view.rs:147, 372-376). */
  method NormalizedParentNames(ps: seq<u32>) returns (names: seq<string>)
    ensures StrictlySorted(names, StrLess)
    ensures Elems(names) == ParentNameSet(ps)
  {
    var raw := ParentNames(ps);
    StrLessTotalOrder();
    StrictTotalEverywhere(StrLess, Elems(raw));
    names := NormalizeParents(raw, StrLess);
    forall x ensures x in Elems(raw) <==> x in ParentNameSet(ps) {
      if x in ParentNameSet(ps) {
        var p :| p in ps && NatToString(p) == x;
        var k :| 0 <= k < |ps| && ps[k] == p;
        assert raw[k] == x;
      }
    }
  }

  /** Each name's parent list: its parents' decimal names, strictly ascending as strings. */
  ghost predicate ParentsNormalized(normalized: map<string, seq<string>>, nodes: map<string, NodeSpec>) {
    && normalized.Keys == nodes.Keys
    && forall n :: n in normalized ==>
      StrictlySorted(normalized[n], StrLess) && Elems(normalized[n]) == ParentNameSet(nodes[n].parents)
  }

  /**
   * The normalised parent lists (src/view.rs:145-149), one per name: the
   * decimal names of the parent ids, strictly ascending as strings.
   */
  method NormalizeAll(nodes: map<string, NodeSpec>, names: seq<string>)
    returns (normalized: map<string, seq<string>>)
    requires Elems(names) == nodes.Keys
    ensures ParentsNormalized(normalized, nodes)
  {
    normalized := map[];
    for i := 0 to |names|
      invariant normalized.Keys == Elems(names[..i])
      invariant forall n :: n in normalized ==>
        StrictlySorted(normalized[n], StrLess) && Elems(normalized[n]) == ParentNameSet(nodes[n].parents)
    {
      var name := names[i];
      ElemsOfLongerPrefix(names, i);
      var ps := NormalizedParentNames(nodes[name].parents);
      normalized := normalized[name := ps];
    }
    assert names[..|names|] == names;
  }

  /** Each name's primary parent is the first of its list, its extra parents the rest. */
  ghost predicate ParentsSplit(primary: map<string, Option<string>>, extras: map<string, seq<string>>,
                               normalized: map<string, seq<string>>)
  {
    && primary.Keys == extras.Keys == normalized.Keys
    && (forall n :: n in primary ==> primary[n] == Primary(normalized[n]))
    && (forall n :: n in extras ==> extras[n] == ExtraParents(normalized[n]))
  }

  /**
   * The primary and extra parents (src/view.rs:151-165): none and no extras
   * for a node without parents, otherwise the first of its normalised list
   * and the rest.
   */
  method SplitParents(normalized: map<string, seq<string>>, names: seq<string>)
    returns (primary: map<string, Option<string>>, extras: map<string, seq<string>>)
    requires Elems(names) == normalized.Keys
    ensures ParentsSplit(primary, extras, normalized)
  {
    primary, extras := map[], map[];
    for i := 0 to |names|
      invariant primary.Keys == extras.Keys == Elems(names[..i])
      invariant forall n :: n in primary ==> primary[n] == Primary(normalized[n])
      invariant forall n :: n in extras ==> extras[n] == ExtraParents(normalized[n])
    {
      var name := names[i];
      ElemsOfLongerPrefix(names, i);
      var parents := normalized[name];
      if parents == [] {
        primary := primary[name := None];
        extras := extras[name := []];
      } else {
        primary := primary[name := Some(parents[0])];
        extras := extras[name := parents[1..]];
      }
    }
    assert names[..|names|] == names;
  }

  /**
   * The roots of the tree view (src/view.rs:183-190): the declared roots
   * together with every node that got no primary parent, ascending and
   * without repeats.
   */
  method CollectRoots(declared: seq<string>, primary: map<string, Option<string>>, names: seq<string>)
    returns (roots: seq<string>)
    requires Elems(names) == primary.Keys
    ensures StrictlySorted(roots, StrLess)
    ensures Elems(roots) == Elems(declared) + Parentless(primary)
  {
    var rootSet := Elems(declared);
    for i := 0 to |names|
      invariant rootSet == Elems(declared) + (set n | n in Elems(names[..i]) && primary[n].None?)
    {
      var name := names[i];
      ElemsOfLongerPrefix(names, i);
      if primary[name].None? {
        rootSet := rootSet + {name};
      }
    }
    assert names[..|names|] == names;
    roots := AscendingNames(rootSet);
  }

  // ---------------------------------------------------------------------------
  // Phase 3: operator views and their aggregates
  // ---------------------------------------------------------------------------

  /** The view of the operator at `a`: a missing time row reads as zero activations, zero time and no name. */
  function OperatorViewOf(a: Addr, time: map<Addr, TimeRow>, memory: map<Addr, MemoryRow>): OperatorView {
    var t := if a in time then time[a] else TimeRow(0, 0, "");
    if a in memory then
      var m := memory[a];
      OperatorView(a.path, t.opName, t.activations, t.totalActiveMs,
                   Some(m.batchedIn), Some(m.merges), Some(m.mergeIn), Some(m.mergeOut), Some(m.dropped))
    else
      OperatorView(a.path, t.opName, t.activations, t.totalActiveMs, None, None, None, None, None)
  }

  function OrZero(o: Option<nat>): nat { if o.Some? then o.value else 0 }

  function Activations(v: OperatorView): nat { v.activations }
  function ActiveMs(v: OperatorView): nat { v.totalActiveMs }
  function BatchedIn(v: OperatorView): nat { OrZero(v.batchedIn) }
  function Merges(v: OperatorView): nat { OrZero(v.merges) }
  function MergeIn(v: OperatorView): nat { OrZero(v.mergeIn) }
  function MergeOut(v: OperatorView): nat { OrZero(v.mergeOut) }
  function Dropped(v: OperatorView): nat { OrZero(v.dropped) }

  /** Operator views ordered by address. */
  function AddrOrder(u: OperatorView, v: OperatorView): bool { Less(Addr(u.addr), Addr(v.addr)) }

  /** `ops` holds the view of each address in `s`, ascending by address. */
  ghost predicate OperatorsOf(ops: seq<OperatorView>, s: set<Addr>, time: map<Addr, TimeRow>, memory: map<Addr, MemoryRow>) {
    && |ops| == |s|
    && StrictlySorted(ops, AddrOrder)
    && forall i :: 0 <= i < |ops| ==> Addr(ops[i].addr) in s && ops[i] == OperatorViewOf(Addr(ops[i].addr), time, memory)
  }

  /** The check of src/view.rs:240-250: both rows present, a non-empty time name, and the names differ. */
  ghost predicate LateMismatch(a: Addr, time: map<Addr, TimeRow>, memory: map<Addr, MemoryRow>) {
    a in memory && a in time && time[a].opName != "" && memory[a].opName != time[a].opName
  }

  /** The running aggregates of the per-operator loop of one name (src/view.rs:202-209, 224). */
  datatype Tally = Tally(
    activations: nat,
    activeMs: nat,
    batchedIn: nat,
    merges: nat,
    mergeIn: nat,
    mergeOut: nat,
    dropped: nat,
    hasMemoryData: bool,
    mapped: nat)

  /** The seven sums of `t` are the sums over `ops`. */
  ghost predicate SumsOver(t: Tally, ops: seq<OperatorView>) {
    && t.activations == SumOf(ops, Activations) && t.activeMs == SumOf(ops, ActiveMs)
    && t.batchedIn == SumOf(ops, BatchedIn) && t.merges == SumOf(ops, Merges)
    && t.mergeIn == SumOf(ops, MergeIn) && t.mergeOut == SumOf(ops, MergeOut)
    && t.dropped == SumOf(ops, Dropped)
  }

  /** `next` is `t` with the figures of `v` added to each sum. */
  ghost predicate AddsFigures(next: Tally, t: Tally, v: OperatorView) {
    && next.activations == t.activations + v.activations && next.activeMs == t.activeMs + v.totalActiveMs
    && next.batchedIn == t.batchedIn + BatchedIn(v) && next.merges == t.merges + Merges(v)
    && next.mergeIn == t.mergeIn + MergeIn(v) && next.mergeOut == t.mergeOut + MergeOut(v)
    && next.dropped == t.dropped + Dropped(v)
  }

  /** Appending one view adds its figures to each of the seven sums. */
  lemma SumsGrow(t: Tally, next: Tally, ops: seq<OperatorView>, v: OperatorView)
    requires SumsOver(t, ops) && AddsFigures(next, t, v)
    ensures SumsOver(next, ops + [v])
  {
    SumOfAppend(ops, v, Activations);
    SumOfAppend(ops, v, ActiveMs);
    SumOfAppend(ops, v, BatchedIn);
    SumOfAppend(ops, v, Merges);
    SumOfAppend(ops, v, MergeIn);
    SumOfAppend(ops, v, MergeOut);
    SumOfAppend(ops, v, Dropped);
  }

  /** Adding a new element to `done` adds one to its overlap with `keys` exactly when the element is a key. */
  lemma OverlapGrows(done: set<Addr>, a: Addr, keys: set<Addr>)
    requires a !in done
    ensures |(done + {a}) * keys| == |done * keys| + (if a in keys then 1 else 0)
    ensures ((done + {a}) * keys != {}) <==> (done * keys != {} || a in keys)
  {
    if a in keys {
      assert (done + {a}) * keys == done * keys + {a};
    } else {
      assert (done + {a}) * keys == done * keys;
    }
  }

  /**
   * One turn of the per-operator loop (src/view.rs:211-277): the time row
   * is looked up (a miss reads as zero and no name) and counted as mapped
   * when found; the op_name check of src/view.rs:240-250 is kept as
   * written; the memory row, when present, adds its five figures.
   */
  method CountOperator(a: Addr, time: map<Addr, TimeRow>, memory: map<Addr, MemoryRow>, t: Tally)
    returns (err: Option<ViewError>, next: Tally)
    ensures err.None? <==> !LateMismatch(a, time, memory)
    ensures err.Some? ==> MismatchAt(err.value, time, memory) && err.value.addr == a
    ensures err.None? ==> AddsFigures(next, t, OperatorViewOf(a, time, memory))
    ensures err.None? ==> next.hasMemoryData == (t.hasMemoryData || a in memory)
    ensures err.None? ==> next.mapped == t.mapped + (if a in time then 1 else 0)
  {
    next := t;
    var opName := "";
    if a in time {
      var row := time[a];
      next := next.(activeMs := next.activeMs + row.totalActiveMs, activations := next.activations + row.activations,
                    mapped := next.mapped + 1);
      opName := row.opName;
    }
    if a in memory && opName != "" && memory[a].opName != opName {
      return Some(OpNameMismatch(a, opName, memory[a].opName)), next;
    }
    if a in memory {
      var row := memory[a];
      next := next.(hasMemoryData := true, batchedIn := next.batchedIn + row.batchedIn, merges := next.merges + row.merges,
                    mergeIn := next.mergeIn + row.mergeIn, mergeOut := next.mergeOut + row.mergeOut,
                    dropped := next.dropped + row.dropped);
    }
    err := None;
  }

  /** The views and sums of the per-operator loop after the first `i` addresses. */
  ghost predicate OpsSoFar(ops: seq<OperatorView>, t: Tally, addrs: seq<Addr>, i: nat,
                           time: map<Addr, TimeRow>, memory: map<Addr, MemoryRow>)
    requires i <= |addrs|
  {
    && |ops| == i && (forall j :: 0 <= j < i ==> ops[j] == OperatorViewOf(addrs[j], time, memory))
    && SumsOver(t, ops)
  }

  /** The flags and counts of the per-operator loop after the addresses in `seen`, the first `i`. */
  ghost predicate CountsSoFar(t: Tally, seen: set<Addr>, addrs: seq<Addr>, i: nat,
                              time: map<Addr, TimeRow>, memory: map<Addr, MemoryRow>)
    requires i <= |addrs|
  {
    && (t.hasMemoryData <==> seen * memory.Keys != {}) && t.mapped == |seen * time.Keys|
    && forall j :: 0 <= j < i ==> !LateMismatch(addrs[j], time, memory)
  }

  lemma OpsStep(ops: seq<OperatorView>, t: Tally, next: Tally, addrs: seq<Addr>, i: nat,
                time: map<Addr, TimeRow>, memory: map<Addr, MemoryRow>)
    requires i < |addrs| && OpsSoFar(ops, t, addrs, i, time, memory)
    requires AddsFigures(next, t, OperatorViewOf(addrs[i], time, memory))
    ensures OpsSoFar(ops + [OperatorViewOf(addrs[i], time, memory)], next, addrs, i + 1, time, memory)
  {
    SumsGrow(t, next, ops, OperatorViewOf(addrs[i], time, memory));
  }

  lemma CountsStep(t: Tally, next: Tally, seen: set<Addr>, addrs: seq<Addr>, i: nat,
                   time: map<Addr, TimeRow>, memory: map<Addr, MemoryRow>)
    requires i < |addrs| && addrs[i] !in seen && CountsSoFar(t, seen, addrs, i, time, memory)
    requires !LateMismatch(addrs[i], time, memory)
    requires next.hasMemoryData == (t.hasMemoryData || addrs[i] in memory)
    requires next.mapped == t.mapped + (if addrs[i] in time then 1 else 0)
    ensures CountsSoFar(next, seen + {addrs[i]}, addrs, i + 1, time, memory)
  {
    OverlapGrows(seen, addrs[i], time.Keys);
    OverlapGrows(seen, addrs[i], memory.Keys);
  }

  /**
   * The per-operator loop of one name (src/view.rs:211-278) over its
   * addresses in the order given: each address gets its view, the sums grow
   * by its figures, and each address found in the time log is counted as
   * mapped.
   */
  method TallyOperators(addrs: seq<Addr>, time: map<Addr, TimeRow>, memory: map<Addr, MemoryRow>)
    returns (err: Option<ViewError>, ops: seq<OperatorView>, t: Tally)
    requires forall i, j :: 0 <= i < j < |addrs| ==> addrs[i] != addrs[j]
    ensures err.None? <==> forall a :: a in addrs ==> !LateMismatch(a, time, memory)
    ensures err.Some? ==> MismatchAt(err.value, time, memory) && err.value.addr in addrs
    ensures err.None? ==> |ops| == |addrs| && forall j :: 0 <= j < |addrs| ==> ops[j] == OperatorViewOf(addrs[j], time, memory)
    ensures err.None? ==> SumsOver(t, ops)
    ensures err.None? ==> (t.hasMemoryData <==> Elems(addrs) * memory.Keys != {}) && t.mapped == |Elems(addrs) * time.Keys|
  {
    ops, t := [], Tally(0, 0, 0, 0, 0, 0, 0, false, 0);
    ghost var seen: set<Addr> := {};
    for i := 0 to |addrs|
      invariant seen == Elems(addrs[..i])
      invariant OpsSoFar(ops, t, addrs, i, time, memory)
      invariant CountsSoFar(t, seen, addrs, i, time, memory)
    {
      var a := addrs[i];
      var e, next := CountOperator(a, time, memory, t);
      if e.Some? {
        return e, ops, t;
      }
      NotInPrefix(addrs, i);
      ElemsOfLongerPrefix(addrs, i);
      OpsStep(ops, t, next, addrs, i, time, memory);
      CountsStep(t, next, seen, addrs, i, time, memory);
      ops, t := ops + [OperatorViewOf(a, time, memory)], next;
      seen := seen + {a};
    }
    assert addrs[..|addrs|] == addrs;
    forall a | a in addrs ensures !LateMismatch(a, time, memory) {
      var j :| 0 <= j < |addrs| && addrs[j] == a;
    }
    return None, ops, t;
  }

  /** What the view of name `n` holds, given its tree children and parent lists. */
  ghost predicate NodeViewOf(v: NameNodeView, n: string, spec: NodeSpec,
                             children: seq<string>, dagParents: seq<string>, extras: seq<string>,
                             time: map<Addr, TimeRow>, memory: map<Addr, MemoryRow>)
  {
    && v.name == n && v.nodeLabel == spec.nodeLabel && v.block == spec.block
    && v.fingerprint == spec.fingerprint && v.tags == spec.tags
    && v.children == children && v.dagParents == dagParents && v.extraParents == extras
    && OperatorsOf(v.operators, spec.operators, time, memory)
    && v.selfActivations == SumOf(v.operators, Activations)
    && v.selfTotalActiveMs == SumOf(v.operators, ActiveMs)
    && v.selfBatchedIn == SumOf(v.operators, BatchedIn)
    && v.selfMerges == SumOf(v.operators, Merges)
    && v.selfMergeIn == SumOf(v.operators, MergeIn)
    && v.selfMergeOut == SumOf(v.operators, MergeOut)
    && v.selfDropped == SumOf(v.operators, Dropped)
    && (v.hasMemoryData <==> spec.operators * memory.Keys != {})
  }

  /** The addresses' views in ascending address order are the operators of the name. */
  lemma AscendingViews(addrs: seq<Addr>, s: set<Addr>, ops: seq<OperatorView>,
                       time: map<Addr, TimeRow>, memory: map<Addr, MemoryRow>)
    requires Elems(addrs) == s && |addrs| == |s| && StrictlySorted(addrs, Less)
    requires |ops| == |addrs| && forall j :: 0 <= j < |addrs| ==> ops[j] == OperatorViewOf(addrs[j], time, memory)
    ensures OperatorsOf(ops, s, time, memory)
  {
    forall i | 0 <= i < |ops| ensures Addr(ops[i].addr) == addrs[i] {
    }
  }

  /**
   * The body of the per-name loop (src/view.rs:200-305): the name's
   * addresses ascending, their views and sums, and the name's view. It
   * fails only on the op_name check, which cannot fire once phase 0 passed.
   */
  method NodeView(name: string, spec: NodeSpec, children: seq<string>, dagParents: seq<string>, extras: seq<string>,
                  time: map<Addr, TimeRow>, memory: map<Addr, MemoryRow>)
    returns (r: Result<NameNodeView, ViewError>, mapped: nat)
    ensures r.Ok? <==> forall a :: a in spec.operators ==> !LateMismatch(a, time, memory)
    ensures OpNamesAgree(time, memory) ==> r.Ok?
    ensures r.Err? ==> MismatchAt(r.error, time, memory) && r.error.addr in spec.operators
    ensures r.Ok? ==> NodeViewOf(r.value, name, spec, children, dagParents, extras, time, memory)
    ensures r.Ok? ==> mapped == |spec.operators * time.Keys|
  {
    var addrs := AscendingAddrs(spec.operators);
    var err, ops, t := TallyOperators(addrs, time, memory);
    mapped := t.mapped;
    if err.Some? {
      return Err(err.value), mapped;
    }
    AscendingViews(addrs, spec.operators, ops, time, memory);
    r := Ok(NameNodeView(name, spec.nodeLabel, spec.block, spec.fingerprint, spec.tags,
                         children, dagParents, extras, t.activations, t.activeMs, t.batchedIn, t.merges,
                         t.mergeIn, t.mergeOut, t.dropped, t.hasMemoryData, ops));
  }

  /** One view per address: every address of the set has exactly one view among `ops`. */
  lemma {:induction false} OneViewPerAddr(ops: seq<OperatorView>, s: set<Addr>, time: map<Addr, TimeRow>,
                                          memory: map<Addr, MemoryRow>, a: Addr)
    requires OperatorsOf(ops, s, time, memory) && a in s
    ensures exists i :: 0 <= i < |ops| && ops[i].addr == a.path
    ensures forall i, j :: 0 <= i < |ops| && 0 <= j < |ops| && ops[i].addr == ops[j].addr ==> i == j
  {
    var xs := seq(|ops|, i requires 0 <= i < |ops| => Addr(ops[i].addr));
    LessTotalOn(Elems(xs));
    assert StrictlySorted(xs, Less);
    DistinctCard(xs, Less);
    if a !in Elems(xs) {
      SubsetCard(Elems(xs), s - {a});
    }
    forall i, j | 0 <= i < |ops| && 0 <= j < |ops| && ops[i].addr == ops[j].addr ensures i == j {
      if i != j {
        StrictlySortedDistinct(xs, Less, i, j);
      }
    }
  }

  // ---------------------------------------------------------------------------
  // The per-name loop and the totals
  // ---------------------------------------------------------------------------

  function NodeMs(v: NameNodeView): nat { v.selfTotalActiveMs }
  function NodeActivations(v: NameNodeView): nat { v.selfActivations }
  function NodeBatchedIn(v: NameNodeView): nat { v.selfBatchedIn }

  /** The view held for `n`, if any, is the view of name `n`. */
  ghost predicate ViewOk(views: map<string, NameNodeView>, n: string, nodes: map<string, NodeSpec>,
                         tree: map<string, seq<string>>, normalized: map<string, seq<string>>,
                         extras: map<string, seq<string>>, time: map<Addr, TimeRow>, memory: map<Addr, MemoryRow>)
  {
    n in views ==> (n in nodes &&
      NodeViewOf(views[n], n, nodes[n], ListOf(tree, n), ListOf(normalized, n), ListOf(extras, n), time, memory))
  }

  /** Every view in `views` is the view of its name. */
  ghost predicate ViewsOf(views: map<string, NameNodeView>, nodes: map<string, NodeSpec>,
                          tree: map<string, seq<string>>, normalized: map<string, seq<string>>,
                          extras: map<string, seq<string>>, time: map<Addr, TimeRow>, memory: map<Addr, MemoryRow>)
  {
    forall n :: ViewOk(views, n, nodes, tree, normalized, extras, time, memory)
  }

  lemma ViewsOfGrow(views: map<string, NameNodeView>, nodes: map<string, NodeSpec>,
                    tree: map<string, seq<string>>, normalized: map<string, seq<string>>,
                    extras: map<string, seq<string>>, time: map<Addr, TimeRow>, memory: map<Addr, MemoryRow>,
                    n: string, v: NameNodeView)
    requires ViewsOf(views, nodes, tree, normalized, extras, time, memory) && n in nodes
    requires NodeViewOf(v, n, nodes[n], ListOf(tree, n), ListOf(normalized, n), ListOf(extras, n), time, memory)
    ensures ViewsOf(views[n := v], nodes, tree, normalized, extras, time, memory)
  {
    var grown := views[n := v];
    forall k ensures ViewOk(grown, k, nodes, tree, normalized, extras, time, memory) {
      assert ViewOk(views, k, nodes, tree, normalized, extras, time, memory);
    }
  }

  /**
   * The view of one name once phase 0 has passed, when the op_name check
   * inside cannot fire, entered into the views built so far.
   */
  method NextView(views: map<string, NameNodeView>, name: string, nodes: map<string, NodeSpec>,
                  tree: map<string, seq<string>>, normalized: map<string, seq<string>>,
                  extras: map<string, seq<string>>, time: map<Addr, TimeRow>, memory: map<Addr, MemoryRow>)
    returns (next: map<string, NameNodeView>, v: NameNodeView, mapped: nat)
    requires OpNamesAgree(time, memory) && name in nodes
    requires ViewsOf(views, nodes, tree, normalized, extras, time, memory)
    ensures next == views[name := v] && ViewsOf(next, nodes, tree, normalized, extras, time, memory)
    ensures mapped == |nodes[name].operators * time.Keys|
  {
    var r;
    r, mapped := NodeView(name, nodes[name], ListOf(tree, name), ListOf(normalized, name), ListOf(extras, name),
                          time, memory);
    if r.Err? {
      assert false;
    }
    v := r.value;
    ViewsOfGrow(views, nodes, tree, normalized, extras, time, memory, name, v);
    next := views[name := v];
  }

  /** The views the per-name loop has built for the names in `done`. */
  ghost predicate ViewsSoFar(views: map<string, NameNodeView>, done: set<string>, nodes: map<string, NodeSpec>,
                             tree: map<string, seq<string>>, normalized: map<string, seq<string>>,
                             extras: map<string, seq<string>>, time: map<Addr, TimeRow>, memory: map<Addr, MemoryRow>)
  {
    && views.Keys == done
    && ViewsOf(views, nodes, tree, normalized, extras, time, memory)
  }

  /** The four running totals of the per-name loop. */
  datatype Totals = Totals(mapped: nat, ms: nat, act: nat, batched: nat)

  /**
   * The totals over the views built for the names in `done`: their addresses
   * found among `keys`, and the three sums over the views.
   */
  ghost function TotalsOf(views: map<string, NameNodeView>, done: set<string>, ops: map<string, set<Addr>>,
                         keys: set<Addr>): Totals
  {
    Totals(|OwnedIn(ops, done) * keys|,
          MapSum(views, NodeMs), MapSum(views, NodeActivations), MapSum(views, NodeBatchedIn))
  }

  /** The running totals agree with the views built so far. */
  ghost predicate TotalsSoFar(views: map<string, NameNodeView>, done: set<string>, ops: map<string, set<Addr>>,
                              keys: set<Addr>, mapped: nat, ms: nat, act: nat, batched: nat)
  {
    TotalsOf(views, done, ops, keys) == Totals(mapped, ms, act, batched)
  }

  /** The state after the per-name loop: a view per name in `done`, and the totals over them. */
  ghost predicate Built(views: map<string, NameNodeView>, done: set<string>, nodes: map<string, NodeSpec>,
                        tree: map<string, seq<string>>, normalized: map<string, seq<string>>,
                        extras: map<string, seq<string>>, time: map<Addr, TimeRow>, memory: map<Addr, MemoryRow>,
                        mapped: nat, ms: nat, act: nat, batched: nat)
  {
    && ViewsSoFar(views, done, nodes, tree, normalized, extras, time, memory)
    && TotalsSoFar(views, done, OperatorSets(nodes), time.Keys, mapped, ms, act, batched)
  }

  /** The views built so far, listed in the order of their names in `vs`. */
  ghost predicate Listed(views: map<string, NameNodeView>, vs: seq<NameNodeView>, names: seq<string>, i: nat)
    requires i <= |names|
  {
    |vs| == i && forall j :: 0 <= j < i ==> names[j] in views && views[names[j]] == vs[j]
  }

  lemma ListedStep(views: map<string, NameNodeView>, vs: seq<NameNodeView>, names: seq<string>, i: nat,
                   v: NameNodeView, views': map<string, NameNodeView>, vs': seq<NameNodeView>)
    requires i < |names| && names[i] !in views
    requires Listed(views, vs, names, i)
    requires views' == views[names[i] := v] && vs' == vs + [v]
    ensures Listed(views', vs', names, i + 1)
  {
  }

  /** The running totals kept by the loop: the same four figures, summed over the list `vs`. */
  ghost predicate RunningSoFar(vs: seq<NameNodeView>, done: set<string>, ops: map<string, set<Addr>>,
                               keys: set<Addr>, mapped: nat, ms: nat, act: nat, batched: nat)
  {
    Totals(|OwnedIn(ops, done) * keys|, SumOf(vs, NodeMs), SumOf(vs, NodeActivations), SumOf(vs, NodeBatchedIn))
      == Totals(mapped, ms, act, batched)
  }

  /**
   * With no address listed by two names, one more name adds its view's
   * figures to the sums and its own found addresses to the count.
   */
  lemma RunningStep(vs: seq<NameNodeView>, done: set<string>, ops: map<string, set<Addr>>, keys: set<Addr>,
                    mapped: nat, ms: nat, act: nat, batched: nat, n: string, v: NameNodeView, m: nat,
                    vs': seq<NameNodeView>, done': set<string>, mapped': nat, ms': nat, act': nat, batched': nat)
    requires OwnersUnique(ops) && n in ops && n !in done
    requires RunningSoFar(vs, done, ops, keys, mapped, ms, act, batched)
    requires m == |ops[n] * keys|
    requires vs' == vs + [v] && done' == done + {n}
    requires mapped' == mapped + m && ms' == ms + v.selfTotalActiveMs
    requires act' == act + v.selfActivations && batched' == batched + v.selfBatchedIn
    ensures RunningSoFar(vs', done', ops, keys, mapped', ms', act', batched')
  {
    MappedGrows(ops, done, n, keys);
    SumOfAppend(vs, v, NodeMs);
    SumOfAppend(vs, v, NodeActivations);
    SumOfAppend(vs, v, NodeBatchedIn);
  }

  /** Once every name is listed, the sums over the list are the sums over the map of views. */
  lemma TotalsFrom(views: map<string, NameNodeView>, vs: seq<NameNodeView>, names: seq<string>,
                   ops: map<string, set<Addr>>, keys: set<Addr>, mapped: nat, ms: nat, act: nat, batched: nat)
    requires forall i, j :: 0 <= i < j < |names| ==> names[i] != names[j]
    requires views.Keys == Elems(names)
    requires Listed(views, vs, names, |names|)
    requires RunningSoFar(vs, Elems(names), ops, keys, mapped, ms, act, batched)
    ensures TotalsSoFar(views, Elems(names), ops, keys, mapped, ms, act, batched)
  {
    MapSumOfSeq(views, names, vs, NodeMs);
    MapSumOfSeq(views, names, vs, NodeActivations);
    MapSumOfSeq(views, names, vs, NodeBatchedIn);
  }

  /** One turn of the per-name loop: the view of `n` joins the map, and `n` the names done. */
  method NameTurn(views: map<string, NameNodeView>, ghost done: set<string>, ghost done': set<string>, n: string,
                  nodes: map<string, NodeSpec>, tree: map<string, seq<string>>, normalized: map<string, seq<string>>,
                  extras: map<string, seq<string>>, time: map<Addr, TimeRow>, memory: map<Addr, MemoryRow>)
    returns (views': map<string, NameNodeView>, v: NameNodeView, m: nat)
    requires n in nodes && n !in done && done' == done + {n}
    requires OpNamesAgree(time, memory)
    requires ViewsSoFar(views, done, nodes, tree, normalized, extras, time, memory)
    ensures ViewsSoFar(views', done', nodes, tree, normalized, extras, time, memory)
    ensures n !in views && views' == views[n := v]
    ensures m == |nodes[n].operators * time.Keys|
  {
    views', v, m := NextView(views, n, nodes, tree, normalized, extras, time, memory);
  }

  /**
   * The per-name loop of phase 3 (src/view.rs:192-305) over the names in the
   * order given, with the running totals of src/view.rs:195-198 kept name by
   * name.
   */
  method NodeViews(nodes: map<string, NodeSpec>, names: seq<string>, tree: map<string, seq<string>>,
                   normalized: map<string, seq<string>>, extras: map<string, seq<string>>,
                   time: map<Addr, TimeRow>, memory: map<Addr, MemoryRow>)
    returns (views: map<string, NameNodeView>, mapped: nat, ms: nat, act: nat, batched: nat)
    requires Elems(names) == nodes.Keys
    requires forall i, j :: 0 <= i < j < |names| ==> names[i] != names[j]
    requires OpNamesAgree(time, memory) && OwnersUnique(OperatorSets(nodes))
    ensures Built(views, nodes.Keys, nodes, tree, normalized, extras, time, memory, mapped, ms, act, batched)
  {
    views, mapped, ms, act, batched := map[], 0, 0, 0, 0;
    ghost var done: set<string> := {};
    ghost var vs: seq<NameNodeView> := [];
    for i := 0 to |names|
      invariant done == Elems(names[..i])
      invariant RunningSoFar(vs, done, OperatorSets(nodes), time.Keys, mapped, ms, act, batched)
      invariant Listed(views, vs, names, i)
      invariant ViewsSoFar(views, done, nodes, tree, normalized, extras, time, memory)
    {
      NotInPrefix(names, i);
      ElemsOfLongerPrefix(names, i);
      ghost var views0, vs0, done0, mapped0, ms0, act0, batched0 := views, vs, done, mapped, ms, act, batched;
      done := done + {names[i]};
      var next, v, m := NameTurn(views, done0, done, names[i], nodes, tree, normalized, extras, time, memory);
      views, vs := next, vs + [v];
      OperatorSetOf(nodes, names[i]);
      ListedStep(views0, vs0, names, i, v, views, vs);
      mapped, ms, act, batched := mapped + m, ms + v.selfTotalActiveMs, act + v.selfActivations, batched + v.selfBatchedIn;
      RunningStep(vs0, done0, OperatorSets(nodes), time.Keys, mapped0, ms0, act0, batched0, names[i], v, m,
                  vs, done, mapped, ms, act, batched);
    }
    assert names[..|names|] == names;
    TotalsFrom(views, vs, names, OperatorSets(nodes), time.Keys, mapped, ms, act, batched);
  }

  // ---------------------------------------------------------------------------
  // Rule views
  // ---------------------------------------------------------------------------

  /** Each name's label, for the plan-node views. */
  function Labels(nodes: map<string, NodeSpec>): map<string, string> {
    map n | n in nodes :: nodes[n].nodeLabel
  }

  /** What the view of one rule holds. */
  ghost predicate RuleViewOf(v: RuleView, rule: RuleSpec, labels: map<string, string>,
                             fingerprintToNode: map<string, string>)
  {
    && v.text == rule.text && v.root == rule.root
    && v.nodes.Keys == rule.nodes.Keys
    && forall fp :: fp in v.nodes ==> PlanNodeViewOf(v.nodes[fp], fp, rule, labels, fingerprintToNode, StrLess)
  }

  /** `build_rule_views` (src/view.rs:322-370): one view per rule, in the rules' order. */
  method BuildRuleViews(rules: seq<RuleSpec>, nodes: map<string, NodeSpec>, fingerprintToNode: map<string, string>)
    returns (views: seq<RuleView>)
    ensures |views| == |rules|
    ensures forall i :: 0 <= i < |rules| ==> RuleViewOf(views[i], rules[i], Labels(nodes), fingerprintToNode)
  {
    StrLessTotalOrder();
    var labels := Labels(nodes);
    views := [];
    for i := 0 to |rules|
      invariant |views| == i
      invariant forall j :: 0 <= j < i ==> RuleViewOf(views[j], rules[j], labels, fingerprintToNode)
    {
      var planViews := PlanNodeViews(rules[i], labels, fingerprintToNode, StrLess);
      views := views + [RuleView(rules[i].text, rules[i].root, planViews)];
    }
  }

  // ---------------------------------------------------------------------------
  // The whole report
  // ---------------------------------------------------------------------------

  /** The nodes whose primary parent, the first of their parent list, is `p`. */
  ghost function PrimaryChildren(d: ReportData, p: string): set<string> {
    set c | c in d.nodes && Primary(d.nodes[c].dagParents) == Some(p)
  }

  /** What the view of name `n` holds in a report built from these inputs. */
  ghost predicate NodeInReport(d: ReportData, n: string, spec: NodeSpec,
                               time: map<Addr, TimeRow>, memory: map<Addr, MemoryRow>)
    requires n in d.nodes
  {
    var v := d.nodes[n];
    && StrictlySorted(v.dagParents, StrLess) && Elems(v.dagParents) == ParentNameSet(spec.parents)
    && StrictlySorted(v.children, StrLess) && Elems(v.children) == PrimaryChildren(d, n)
    && NodeViewOf(v, n, spec, v.children, v.dagParents, ExtraParents(v.dagParents), time, memory)
  }

  /** One view per name, each as `NodeInReport` describes it. */
  ghost predicate NodesInReport(d: ReportData, nodes: map<string, NodeSpec>,
                                time: map<Addr, TimeRow>, memory: map<Addr, MemoryRow>)
  {
    && d.nodes.Keys == nodes.Keys
    && forall n :: n in d.nodes ==> NodeInReport(d, n, nodes[n], time, memory)
  }

  /** The roots: the declared ones and every name without parents, ascending, once each. */
  ghost predicate RootsInReport(d: ReportData, roots: seq<string>) {
    && StrictlySorted(d.roots, StrLess)
    && Elems(d.roots) == Elems(roots) + (set n | n in d.nodes && d.nodes[n].dagParents == [])
  }

  /** One rule view per rule, in order. */
  ghost predicate RulesInReport(d: ReportData, rules: seq<RuleSpec>, labels: map<string, string>,
                                fingerprintToNode: map<string, string>)
  {
    && |d.rules| == |rules|
    && forall i :: 0 <= i < |rules| ==> RuleViewOf(d.rules[i], rules[i], labels, fingerprintToNode)
  }

  /** The totals: counts of names, of time rows and of listed addresses found in the time log, and sums over the names. */
  ghost predicate TotalsInReport(d: ReportData, nodes: map<string, NodeSpec>, time: map<Addr, TimeRow>) {
    && d.totals.names == |nodes| && d.totals.operatorsInTime == |time|
    && d.totals.operatorsMapped == |Owned(OperatorSets(nodes)) * time.Keys|
    && d.totals.totalMappedMs == MapSum(d.nodes, NodeMs)
    && d.totals.totalMappedActivations == MapSum(d.nodes, NodeActivations)
    && d.totals.totalBatchedIn == MapSum(d.nodes, NodeBatchedIn)
  }

  /** Everything a successful `build_report_data` promises about its result. */
  ghost predicate IsReport(d: ReportData, nodes: map<string, NodeSpec>, roots: seq<string>, rules: seq<RuleSpec>,
                           fingerprintToNode: map<string, string>,
                           time: map<Addr, TimeRow>, memory: map<Addr, MemoryRow>)
  {
    && NodesInReport(d, nodes, time, memory)
    && RootsInReport(d, roots)
    && RulesInReport(d, rules, Labels(nodes), fingerprintToNode)
    && TotalsInReport(d, nodes, time)
  }

  /** The spanning tree as `ReportTree.TreeChildren` leaves it. */
  ghost predicate TreeOf(tree: map<string, seq<string>>, primary: map<string, Option<string>>) {
    && (forall p :: p in tree <==> IsPrimaryOfSome(primary, p))
    && (forall p :: p in tree ==> StrictlySorted(tree[p], StrLess) && Elems(tree[p]) == TreeKids(primary, p))
  }

  /** One name's view, built from the phases' maps, is as the report describes it. */
  lemma NodeAssembled(d: ReportData, n: string, spec: NodeSpec, time: map<Addr, TimeRow>, memory: map<Addr, MemoryRow>,
                      normalized: map<string, seq<string>>, primary: map<string, Option<string>>,
                      extras: map<string, seq<string>>, tree: map<string, seq<string>>)
    requires n in d.nodes && n in normalized && primary.Keys == d.nodes.Keys
    requires StrictlySorted(normalized[n], StrLess) && Elems(normalized[n]) == ParentNameSet(spec.parents)
    requires n in extras && extras[n] == ExtraParents(normalized[n])
    requires forall c :: c in primary ==> c in normalized && primary[c] == Primary(normalized[c])
    requires forall c :: c in d.nodes ==> d.nodes[c].dagParents == ListOf(normalized, c)
    requires n in tree <==> IsPrimaryOfSome(primary, n)
    requires n in tree ==> StrictlySorted(tree[n], StrLess) && Elems(tree[n]) == TreeKids(primary, n)
    requires NodeViewOf(d.nodes[n], n, spec, ListOf(tree, n), ListOf(normalized, n), ListOf(extras, n), time, memory)
    ensures NodeInReport(d, n, spec, time, memory)
  {
    assert PrimaryChildren(d, n) == TreeKids(primary, n);
    if n !in tree {
      forall c | c in primary && primary[c] == Some(n) ensures false {
        assert IsPrimaryOfSome(primary, n);
      }
    }
  }

  lemma DagParentsOfViews(views: map<string, NameNodeView>, nodes: map<string, NodeSpec>,
                          tree: map<string, seq<string>>, normalized: map<string, seq<string>>,
                          extras: map<string, seq<string>>, time: map<Addr, TimeRow>, memory: map<Addr, MemoryRow>)
    requires ViewsOf(views, nodes, tree, normalized, extras, time, memory)
    ensures forall c :: c in views ==> views[c].dagParents == ListOf(normalized, c)
  {
    forall c | c in views ensures views[c].dagParents == ListOf(normalized, c) {
      assert ViewOk(views, c, nodes, tree, normalized, extras, time, memory);
    }
  }

  lemma NodesAssembled(d: ReportData, nodes: map<string, NodeSpec>, time: map<Addr, TimeRow>, memory: map<Addr, MemoryRow>,
                       normalized: map<string, seq<string>>, primary: map<string, Option<string>>,
                       extras: map<string, seq<string>>, tree: map<string, seq<string>>)
    requires ParentsNormalized(normalized, nodes) && ParentsSplit(primary, extras, normalized) && TreeOf(tree, primary)
    requires d.nodes.Keys == nodes.Keys && ViewsOf(d.nodes, nodes, tree, normalized, extras, time, memory)
    ensures NodesInReport(d, nodes, time, memory)
  {
    DagParentsOfViews(d.nodes, nodes, tree, normalized, extras, time, memory);
    forall n | n in d.nodes ensures NodeInReport(d, n, nodes[n], time, memory) {
      assert ViewOk(d.nodes, n, nodes, tree, normalized, extras, time, memory);
      NodeAssembled(d, n, nodes[n], time, memory, normalized, primary, extras, tree);
    }
  }

  lemma RootsAssembled(d: ReportData, roots: seq<string>, nodes: map<string, NodeSpec>,
                       normalized: map<string, seq<string>>, primary: map<string, Option<string>>,
                       extras: map<string, seq<string>>)
    requires ParentsNormalized(normalized, nodes) && ParentsSplit(primary, extras, normalized)
    requires d.nodes.Keys == nodes.Keys
    requires forall c :: c in d.nodes ==> d.nodes[c].dagParents == ListOf(normalized, c)
    requires StrictlySorted(d.roots, StrLess) && Elems(d.roots) == Elems(roots) + Parentless(primary)
    ensures RootsInReport(d, roots)
  {
    assert Parentless(primary) == (set n | n in d.nodes && d.nodes[n].dagParents == []);
  }

  lemma TotalsAssembled(d: ReportData, nodes: map<string, NodeSpec>, time: map<Addr, TimeRow>, mapped: nat)
    requires mapped == |OwnedIn(OperatorSets(nodes), nodes.Keys) * time.Keys|
    requires d.totals == TotalsView(|nodes|, |time|, mapped, MapSum(d.nodes, NodeMs),
                                    MapSum(d.nodes, NodeActivations), MapSum(d.nodes, NodeBatchedIn))
    ensures TotalsInReport(d, nodes, time)
  {
    assert OperatorSets(nodes).Keys == nodes.Keys;
    OwnedInAll(OperatorSets(nodes));
  }

  /**
   * `build_report_data` (src/view.rs:102-320). It fails exactly when the two
   * logs name an operator differently (the smallest such address is named)
   * or when two names list one address (the two names, ascending, are
   * named); otherwise the report is as `IsReport` describes it.
   */
  method BuildReportData(nodes: map<string, NodeSpec>, roots: seq<string>, rules: seq<RuleSpec>,
                         fingerprintToNode: map<string, string>,
                         time: map<Addr, TimeRow>, memory: map<Addr, MemoryRow>)
    returns (r: Result<ReportData, ViewError>)
    ensures r.Ok? <==> OpNamesAgree(time, memory) && OwnersUnique(OperatorSets(nodes))
    ensures r.Err? && !OpNamesAgree(time, memory) ==> (
      && MismatchAt(r.error, time, memory)
      && forall b :: b in memory && b in time && Less(b, r.error.addr) ==> time[b].opName == memory[b].opName)
    ensures r.Err? && OpNamesAgree(time, memory) ==> (
      && r.error.AddrShared?
      && var e := r.error.clash;
      && e.first in nodes && e.second in nodes && StrLess(e.first, e.second)
      && e.addr in nodes[e.first].operators && e.addr in nodes[e.second].operators)
    ensures r.Ok? ==> IsReport(r.value, nodes, roots, rules, fingerprintToNode, time, memory)
  {
    var mismatch := CheckOpNames(time, memory);
    if mismatch.Some? {
      return Err(mismatch.value);
    }
    var owners := AssignOwnersByName(nodes);
    if owners.Err? {
      return Err(AddrShared(owners.error));
    }
    var report := BuildChecked(nodes, roots, rules, fingerprintToNode, time, memory);
    return Ok(report);
  }

  /** Phase 2 (src/view.rs:143-190): parent lists, primary and extra parents, the tree and its roots. */
  method DeriveTree(nodes: map<string, NodeSpec>, roots: seq<string>, names: seq<string>)
    returns (normalized: map<string, seq<string>>, primary: map<string, Option<string>>,
             extras: map<string, seq<string>>, tree: map<string, seq<string>>, rootList: seq<string>)
    requires Elems(names) == nodes.Keys
    ensures ParentsNormalized(normalized, nodes) && ParentsSplit(primary, extras, normalized) && TreeOf(tree, primary)
    ensures StrictlySorted(rootList, StrLess) && Elems(rootList) == Elems(roots) + Parentless(primary)
  {
    normalized := NormalizeAll(nodes, names);
    primary, extras := SplitParents(normalized, names);
    tree := PrimaryTree(primary);
    rootList := CollectRoots(roots, primary, names);
  }

  /** Phases 2 and 3 and the rule views, once phases 0 and 1 have passed. */
  method BuildChecked(nodes: map<string, NodeSpec>, roots: seq<string>, rules: seq<RuleSpec>,
                      fingerprintToNode: map<string, string>,
                      time: map<Addr, TimeRow>, memory: map<Addr, MemoryRow>)
    returns (d: ReportData)
    requires OpNamesAgree(time, memory) && OwnersUnique(OperatorSets(nodes))
    ensures IsReport(d, nodes, roots, rules, fingerprintToNode, time, memory)
  {
    var names := AscendingNames(nodes.Keys);
    var normalized, primary, extras, tree, rootList := DeriveTree(nodes, roots, names);
    var views, mapped, ms, act, batched := NodeViews(nodes, names, tree, normalized, extras, time, memory);
    var ruleViews := BuildRuleViews(rules, nodes, fingerprintToNode);
    d := ReportData(rootList, views, ruleViews, TotalsView(|nodes|, |time|, mapped, ms, act, batched));
    NodesAssembled(d, nodes, time, memory, normalized, primary, extras, tree);
    DagParentsOfViews(views, nodes, tree, normalized, extras, time, memory);
    RootsAssembled(d, roots, nodes, normalized, primary, extras);
    TotalsAssembled(d, nodes, time, mapped);
  }

  /** Phase 1 on the names' operator sets, names ordered as strings. */
  method AssignOwnersByName(nodes: map<string, NodeSpec>) returns (r: Result<map<Addr, string>, SharedAddr>)
    ensures r.Ok? <==> OwnersUnique(OperatorSets(nodes))
    ensures r.Err? ==> var e := r.error;
      && e.first in nodes && e.second in nodes && StrLess(e.first, e.second)
      && e.addr in nodes[e.first].operators && e.addr in nodes[e.second].operators
  {
    StrLessTotalOrder();
    r := AssignOwners(OperatorSets(nodes), StrLess);
  }

  /** The spanning tree under string order. */
  method PrimaryTree(primary: map<string, Option<string>>) returns (tree: map<string, seq<string>>)
    ensures TreeOf(tree, primary)
  {
    StrLessTotalOrder();
    tree := TreeChildren(primary, StrLess);
  }
}
