/**
 * `OpsSpec::validate_and_build` of the first generation (src/ops.rs): the
 * four phases chained, with the whole validation stated on the raw rows of
 * `ops.json`.
 */
module Ops {
  import opened Wrappers
  import opened Order
  import opened Address
  import opened OpsNodes
  import opened OpsRules

  /** `OpsSpec`: the node rows and the rules of `ops.json`. */
  datatype OpsSpec = OpsSpec(nodes: seq<RawNode>, rules: seq<RawRule>)

  /** `ValidatedOps`. */
  datatype ValidatedOps = ValidatedOps(
    nodes: map<u32, NodeSpec>,
    roots: seq<u32>,
    rules: seq<RuleSpec>,
    fingerprintToNode: map<string, u32>)

  // ---------------------------------------------------------------------------
  // Validity on the raw rows
  // ---------------------------------------------------------------------------

  ghost function RawIds(raws: seq<RawNode>): set<u32> {
    set k | 0 <= k < |raws| :: raws[k].id
  }

  /** No two rows of the same block carry the same (normalised) fingerprint. */
  ghost predicate RawFingerprintsUnique(raws: seq<RawNode>) {
    forall j, k :: 0 <= j < k < |raws| && NormalizeFingerprint(raws[j].fingerprint).Some?
                   && NormalizeFingerprint(raws[j].fingerprint) == NormalizeFingerprint(raws[k].fingerprint)
                   ==> BlockOf(raws[j]) != BlockOf(raws[k])
  }

  /** Every parent id a row lists is the id of some row. */
  ghost predicate RawParentsExist(raws: seq<RawNode>) {
    forall k, p :: 0 <= k < |raws| && p in raws[k].parents ==> p in RawIds(raws)
  }

  /** The ids of the rows that list no parent. */
  ghost function RawRoots(raws: seq<RawNode>): set<u32> {
    set k | 0 <= k < |raws| && raws[k].parents == [] :: raws[k].id
  }

  /** The (normalised) fingerprints the rows carry. */
  ghost function RawFingerprints(raws: seq<RawNode>): set<string> {
    set k | 0 <= k < |raws| && NormalizeFingerprint(raws[k].fingerprint).Some? :: NormalizeFingerprint(raws[k].fingerprint).value
  }

  /** The plan fingerprints of the rules. */
  ghost function PlannedFingerprints(rules: seq<RawRule>): set<string> {
    set k, fp | 0 <= k < |rules| && fp in RuleParents(rules[k]) :: fp
  }

  /** Phases 1 and 2 succeed. */
  ghost predicate NodesValid(raws: seq<RawNode>) {
    && raws != []
    && IdsDistinctUpTo(raws, |raws|)
    && RawFingerprintsUnique(raws)
    && RawParentsExist(raws)
  }

  /** Every rule passes phase 3. */
  ghost predicate RulesValid(rules: seq<RawRule>, known: set<string>, asWritten: bool) {
    forall k :: 0 <= k < |rules| ==> RuleValid(rules[k], known, asWritten)
  }

  /** Rule `k` is the first that fails phase 3. */
  ghost predicate FirstInvalidRule(rules: seq<RawRule>, k: int, known: set<string>, asWritten: bool) {
    && 0 <= k < |rules|
    && !RuleValid(rules[k], known, asWritten)
    && forall j :: 0 <= j < k ==> RuleValid(rules[j], known, asWritten)
  }

  /** Row `k` carries fingerprint `fp`, and no rule's plan tree lists it. */
  ghost predicate UnplannedRow(spec: OpsSpec, k: int, fp: string) {
    && 0 <= k < |spec.nodes|
    && NormalizeFingerprint(spec.nodes[k].fingerprint) == Some(fp)
    && fp !in PlannedFingerprints(spec.rules)
  }

  /** All four phases succeed, with phase 3's repeat check as written or as intended. */
  ghost predicate Valid(spec: OpsSpec, asWritten: bool) {
    && NodesValid(spec.nodes)
    && RulesValid(spec.rules, RawFingerprints(spec.nodes), asWritten)
    && RawFingerprints(spec.nodes) <= PlannedFingerprints(spec.rules)
  }

  // ---------------------------------------------------------------------------
  // From the node map back to the rows
  // ---------------------------------------------------------------------------

  lemma UniqueOnRows(nodes: map<u32, NodeSpec>, raws: seq<RawNode>)
    requires IdsDistinctUpTo(raws, |raws|) && KeyedUpTo(nodes, raws, |raws|)
    ensures FingerprintsUniquePerBlock(nodes) <==> RawFingerprintsUnique(raws)
  {
    if FingerprintsUniquePerBlock(nodes) {
      forall j, k | 0 <= j < k < |raws| && NormalizeFingerprint(raws[j].fingerprint).Some?
                    && NormalizeFingerprint(raws[j].fingerprint) == NormalizeFingerprint(raws[k].fingerprint)
        ensures BlockOf(raws[j]) != BlockOf(raws[k])
      {
        var fp := NormalizeFingerprint(raws[j].fingerprint).value;
        assert HasFingerprint(nodes, raws[j].id, fp) && HasFingerprint(nodes, raws[k].id, fp);
      }
    }
    if RawFingerprintsUnique(raws) {
      forall a, b, fp | HasFingerprint(nodes, a, fp) && HasFingerprint(nodes, b, fp) && a != b
        ensures nodes[a].block != nodes[b].block
      {
        var j :| 0 <= j < |raws| && raws[j].id == a;
        var k :| 0 <= k < |raws| && raws[k].id == b;
        assert nodes[a] == nodes[raws[j].id] && nodes[b] == nodes[raws[k].id];
        if j > k {
          assert BlockOf(raws[k]) != BlockOf(raws[j]);
        }
      }
    }
  }

  lemma ParentsOnRows(nodes: map<u32, NodeSpec>, raws: seq<RawNode>)
    requires KeyedUpTo(nodes, raws, |raws|)
    ensures ParentsExist(nodes) <==> RawParentsExist(raws)
    ensures nodes.Keys == RawIds(raws)
  {
    assert nodes.Keys == RawIds(raws) by {
      forall id | id in nodes ensures id in RawIds(raws) {
        var k :| 0 <= k < |raws| && raws[k].id == id;
      }
    }
    if ParentsExist(nodes) {
      forall k, p | 0 <= k < |raws| && p in raws[k].parents ensures p in RawIds(raws) {
        assert p in Elems(raws[k].parents);
        assert p in Elems(nodes[raws[k].id].parents);
      }
    }
    if RawParentsExist(raws) {
      forall id, p | id in nodes && p in nodes[id].parents ensures p in nodes {
        var k :| 0 <= k < |raws| && raws[k].id == id;
        assert p in Elems(nodes[id].parents);
        assert p in raws[k].parents;
      }
    }
  }

  lemma RootsOnRows(nodes: map<u32, NodeSpec>, raws: seq<RawNode>)
    requires KeyedUpTo(nodes, raws, |raws|)
    ensures ParentlessIds(nodes) == RawRoots(raws)
  {
    forall id | id in nodes ensures nodes[id].parents == [] <==> exists k :: 0 <= k < |raws| && raws[k].id == id && raws[k].parents == [] {
      var k :| 0 <= k < |raws| && raws[k].id == id;
      assert nodes[id] == nodes[raws[k].id];
      NoElemsIffEmpty(nodes[id].parents);
      NoElemsIffEmpty(raws[k].parents);
    }
  }

  lemma NoElemsIffEmpty<T>(xs: seq<T>)
    ensures Elems(xs) == {} <==> xs == []
  {
    if xs != [] {
      assert xs[0] in Elems(xs);
    }
  }

  lemma KnownOnRows(nodes: map<u32, NodeSpec>, raws: seq<RawNode>, index: map<string, u32>)
    requires KeyedUpTo(nodes, raws, |raws|) && IndexesSmallest(index, nodes)
    ensures index.Keys == RawFingerprints(raws)
  {
    forall fp | fp in index ensures fp in RawFingerprints(raws) {
      var id :| HasFingerprint(nodes, id, fp);
      var k :| 0 <= k < |raws| && raws[k].id == id;
      assert nodes[id] == nodes[raws[k].id];
    }
    forall fp | fp in RawFingerprints(raws) ensures fp in index {
      var k :| 0 <= k < |raws| && NormalizeFingerprint(raws[k].fingerprint) == Some(fp);
      assert HasFingerprint(nodes, raws[k].id, fp);
    }
  }

  // ---------------------------------------------------------------------------
  // Phases 1 and 2
  // ---------------------------------------------------------------------------

  /** What phases 1 and 2 produce. */
  datatype NodeTables = NodeTables(nodes: map<u32, NodeSpec>, index: map<string, u32>, roots: seq<u32>)

  /**
   * Phases 1 and 2: the node map, the fingerprint index and the roots; the
   * first failing check decides the error.
   */
  method BuildNodeTables(raws: seq<RawNode>) returns (r: Result<NodeTables, OpsError>)
    ensures r.Ok? <==> NodesValid(raws)
    ensures r.Ok? ==> KeyedUpTo(r.value.nodes, raws, |raws|)
    ensures r.Ok? ==> IndexesSmallest(r.value.index, r.value.nodes) && r.value.index.Keys == RawFingerprints(raws)
    ensures r.Ok? ==> StrictlySorted(r.value.roots, IdLess) && Elems(r.value.roots) == RawRoots(raws)
    ensures r.Err? && !IdsDistinctUpTo(raws, |raws|) ==> r.error.DuplicateId?
    ensures r.Err? && IdsDistinctUpTo(raws, |raws|) && raws == [] ==> r.error == NoNodes
    ensures r.Err? && IdsDistinctUpTo(raws, |raws|) && raws != [] && !RawFingerprintsUnique(raws) ==> r.error.SharedFingerprint?
    ensures r.Err? && IdsDistinctUpTo(raws, |raws|) && raws != [] && RawFingerprintsUnique(raws) ==> r.error.MissingParent?
  {
    var nodes := BuildNodes(raws);
    if nodes.Err? {
      return Err(nodes.error);
    }
    var ns := nodes.value;
    assert KeyedUpTo(ns, raws, |raws|);
    UniqueOnRows(ns, raws);
    ParentsOnRows(ns, raws);
    var index := IndexFingerprints(ns);
    if index.Err? {
      return Err(index.error);
    }
    KnownOnRows(ns, raws, index.value);
    var roots := ComputeRoots(ns);
    RootsOnRows(ns, raws);
    var checked := CheckParents(ns);
    if checked.Err? {
      return Err(checked.error);
    }
    return Ok(NodeTables(ns, index.value, roots));
  }

  // ---------------------------------------------------------------------------
  // Phases 3 and 4
  // ---------------------------------------------------------------------------

  /** Phase 3: every rule built in order; the first invalid rule decides the error. */
  method BuildRules(rules: seq<RawRule>, index: map<string, u32>, asWritten: bool)
    returns (r: Result<seq<RuleSpec>, OpsError>)
    ensures r.Ok? <==> RulesValid(rules, index.Keys, asWritten)
    ensures r.Ok? ==> |r.value| == |rules| && forall k :: 0 <= k < |rules| ==> BuiltFrom(r.value[k], rules[k], index.Keys)
    ensures r.Err? ==> exists k :: FirstInvalidRule(rules, k, index.Keys, asWritten)
                                && ReportsRule(r.error, rules[k], index.Keys, asWritten)
    ensures r.Err? ==> IsRuleError(r.error)
  {
    var out: seq<RuleSpec> := [];
    for i := 0 to |rules|
      invariant |out| == i
      invariant forall k :: 0 <= k < i ==> RuleValid(rules[k], index.Keys, asWritten) && BuiltFrom(out[k], rules[k], index.Keys)
    {
      var rule := BuildRule(rules[i], index, asWritten);
      if rule.Err? {
        assert FirstInvalidRule(rules, i, index.Keys, asWritten);
        return Err(rule.error);
      }
      out := out + [rule.value];
    }
    return Ok(out);
  }

  /** The plan fingerprints of the built rules. */
  ghost function RecordedFingerprints(rules: seq<RuleSpec>): set<string> {
    set k, fp | 0 <= k < |rules| && fp in rules[k].nodes :: fp
  }

  /** The union of the plan keys of the first `n` rules, as `rule_fps.extend` builds it. */
  method CollectRuleFingerprints(rules: seq<RuleSpec>) returns (fps: set<string>)
    ensures fps == RecordedFingerprints(rules)
  {
    fps := {};
    for i := 0 to |rules|
      invariant fps == set k, fp | 0 <= k < i && fp in rules[k].nodes :: fp
    {
      fps := fps + rules[i].nodes.Keys;
    }
  }

  /**
   * Phase 4: every fingerprinted node must appear in some rule's plan tree;
   * the first node in id order that does not is reported.
   */
  method CheckRecorded(nodes: map<u32, NodeSpec>, rules: seq<RuleSpec>) returns (r: Result<(), OpsError>)
    ensures r.Ok? <==> forall id, fp :: HasFingerprint(nodes, id, fp) ==> fp in RecordedFingerprints(rules)
    ensures r.Err? ==> exists id, fp :: HasFingerprint(nodes, id, fp) && fp !in RecordedFingerprints(rules)
                                     && r.error == UnrecordedFingerprint(id, fp)
                                     && forall id', fp' :: HasFingerprint(nodes, id', fp') && id' < id ==>
                                                             fp' in RecordedFingerprints(rules)
  {
    var ruleFps := CollectRuleFingerprints(rules);
    IdLessTotal(nodes.Keys);
    var ids := SortedElements(nodes.Keys, IdLess);
    for i := 0 to |ids|
      invariant forall j, fp :: 0 <= j < i && HasFingerprint(nodes, ids[j], fp) ==> fp in ruleFps
    {
      assert ids[i] in Elems(ids);
      var node := nodes[ids[i]];
      if node.fingerprint.Some? && node.fingerprint.value !in ruleFps {
        assert HasFingerprint(nodes, ids[i], node.fingerprint.value);
        forall id', fp' | HasFingerprint(nodes, id', fp') && id' < ids[i] ensures fp' in ruleFps {
          BeforeInSorted(ids, IdLess, i, id');
        }
        return Err(UnrecordedFingerprint(ids[i], node.fingerprint.value));
      }
    }
    forall id, fp | HasFingerprint(nodes, id, fp) ensures fp in ruleFps {
      var j :| 0 <= j < |ids| && ids[j] == id;
    }
    return Ok(());
  }

  /** The plan keys of built rules are the plan keys of their raw rules. */
  lemma RecordedOnRules(built: seq<RuleSpec>, rules: seq<RawRule>, known: set<string>)
    requires |built| == |rules| && forall k :: 0 <= k < |rules| ==> BuiltFrom(built[k], rules[k], known)
    ensures RecordedFingerprints(built) == PlannedFingerprints(rules)
  {
    forall fp | fp in PlannedFingerprints(rules) ensures fp in RecordedFingerprints(built) {
      var k :| 0 <= k < |rules| && fp in RuleParents(rules[k]);
      assert fp in built[k].nodes;
    }
    forall fp | fp in RecordedFingerprints(built) ensures fp in PlannedFingerprints(rules) {
      var k :| 0 <= k < |built| && fp in built[k].nodes;
      assert fp in RuleParents(rules[k]);
    }
  }

  /** Every fingerprint the rows carry is planned, stated on the node map. */
  lemma RecordedOnRows(nodes: map<u32, NodeSpec>, raws: seq<RawNode>, index: map<string, u32>, planned: set<string>)
    requires KeyedUpTo(nodes, raws, |raws|) && IndexesSmallest(index, nodes) && index.Keys == RawFingerprints(raws)
    ensures (forall id, fp :: HasFingerprint(nodes, id, fp) ==> fp in planned) <==> RawFingerprints(raws) <= planned
  {
  }

  /** The node phase 4 reports, stated on the rows: the smallest id of an unplanned row. */
  lemma UnrecordedOnRows(spec: OpsSpec, nodes: map<u32, NodeSpec>, built: seq<RuleSpec>, id: u32, fp: string)
    requires KeyedUpTo(nodes, spec.nodes, |spec.nodes|)
    requires RecordedFingerprints(built) == PlannedFingerprints(spec.rules)
    requires HasFingerprint(nodes, id, fp) && fp !in RecordedFingerprints(built)
    requires forall id': u32, fp' :: HasFingerprint(nodes, id', fp') && id' < id ==> fp' in RecordedFingerprints(built)
    ensures exists k :: UnplannedRow(spec, k, fp) && spec.nodes[k].id == id
    ensures forall j, fp' :: UnplannedRow(spec, j, fp') ==> id <= spec.nodes[j].id
  {
    var k :| 0 <= k < |spec.nodes| && spec.nodes[k].id == id;
    assert nodes[id] == nodes[spec.nodes[k].id];
    assert UnplannedRow(spec, k, fp);
    forall j, fp' | UnplannedRow(spec, j, fp') ensures id <= spec.nodes[j].id {
      assert HasFingerprint(nodes, spec.nodes[j].id, fp');
    }
  }

  // ---------------------------------------------------------------------------
  // The whole validation
  // ---------------------------------------------------------------------------

  /**
   * `validate_and_build`: accepted exactly when the rows and rules are
   * valid; the result keys every row under its id, lists the parentless ids
   * in order, indexes each fingerprint by its smallest id and holds one
   * built rule per raw rule. The first failing check decides the error:
   * phases 1 and 2 by kind, in order; phase 3 with the first invalid rule's
   * own error; phase 4 with the smallest id of a row whose fingerprint no
   * plan tree lists. `asWritten` picks phase 3's repeated-entry check: as
   * the code runs it (never firing) or as its message intends it.
   */
  method ValidateAndBuild(spec: OpsSpec, asWritten: bool) returns (r: Result<ValidatedOps, OpsError>)
    ensures r.Ok? <==> Valid(spec, asWritten)
    ensures r.Ok? ==> KeyedUpTo(r.value.nodes, spec.nodes, |spec.nodes|)
    ensures r.Ok? ==> StrictlySorted(r.value.roots, IdLess) && Elems(r.value.roots) == RawRoots(spec.nodes)
    ensures r.Ok? ==> IndexesSmallest(r.value.fingerprintToNode, r.value.nodes)
    ensures r.Ok? ==> |r.value.rules| == |spec.rules|
    ensures r.Ok? ==> forall k :: 0 <= k < |spec.rules| ==> BuiltFrom(r.value.rules[k], spec.rules[k], RawFingerprints(spec.nodes))
    ensures r.Err? && !IdsDistinctUpTo(spec.nodes, |spec.nodes|) ==> r.error.DuplicateId?
    ensures r.Err? && IdsDistinctUpTo(spec.nodes, |spec.nodes|) && spec.nodes == [] ==> r.error == NoNodes
    ensures r.Err? && IdsDistinctUpTo(spec.nodes, |spec.nodes|) && spec.nodes != [] && !RawFingerprintsUnique(spec.nodes) ==>
      r.error.SharedFingerprint?
    ensures r.Err? && IdsDistinctUpTo(spec.nodes, |spec.nodes|) && spec.nodes != [] && RawFingerprintsUnique(spec.nodes) && !RawParentsExist(spec.nodes) ==>
      r.error.MissingParent?
    ensures r.Err? && NodesValid(spec.nodes) && !RulesValid(spec.rules, RawFingerprints(spec.nodes), asWritten) ==>
      exists k :: FirstInvalidRule(spec.rules, k, RawFingerprints(spec.nodes), asWritten)
               && ReportsRule(r.error, spec.rules[k], RawFingerprints(spec.nodes), asWritten)
    ensures r.Err? && NodesValid(spec.nodes) && RulesValid(spec.rules, RawFingerprints(spec.nodes), asWritten) ==>
      exists k, fp :: UnplannedRow(spec, k, fp) && r.error == UnrecordedFingerprint(spec.nodes[k].id, fp)
                   && forall j, fp' :: UnplannedRow(spec, j, fp') ==> spec.nodes[k].id <= spec.nodes[j].id
  {
    var tables := BuildNodeTables(spec.nodes);
    if tables.Err? {
      return Err(tables.error);
    }
    var t := tables.value;
    var rules := BuildRules(spec.rules, t.index, asWritten);
    if rules.Err? {
      return Err(rules.error);
    }
    RecordedOnRules(rules.value, spec.rules, t.index.Keys);
    RecordedOnRows(t.nodes, spec.nodes, t.index, PlannedFingerprints(spec.rules));
    var recorded := CheckRecorded(t.nodes, rules.value);
    if recorded.Err? {
      ghost var id, fp :| HasFingerprint(t.nodes, id, fp) && fp !in RecordedFingerprints(rules.value)
                          && recorded.error == UnrecordedFingerprint(id, fp)
                          && forall id', fp' :: HasFingerprint(t.nodes, id', fp') && id' < id ==>
                                                  fp' in RecordedFingerprints(rules.value);
      UnrecordedOnRows(spec, t.nodes, rules.value, id, fp);
      return Err(recorded.error);
    }
    return Ok(ValidatedOps(t.nodes, t.roots, rules.value, t.index));
  }
}
