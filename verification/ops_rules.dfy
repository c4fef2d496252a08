/**
 * The rule phase of the first-generation topology validation (src/ops.rs,
 * `OpsSpec::validate_and_build`, phase 3): each rule lists its plan tree as
 * fingerprints with parent fingerprints; validation keys the entries by
 * trimmed fingerprint, checks them against the node fingerprints, inverts the
 * parent edges into sorted child lists and requires exactly one sink.
 */
module OpsRules {
  import opened Wrappers
  import opened Order
  import opened Text
  import opened Address
  import opened OpsNodes

  /** `RawPlanNode`: one plan-tree entry; the parents are fingerprints. */
  datatype RawPlanNode = RawPlanNode(fingerprint: string, parents: seq<string>)

  /** `RawRule`: the rule text and its plan tree. */
  datatype RawRule = RawRule(text: string, planTree: seq<RawPlanNode>)

  /** `RulePlanNodeSpec`. */
  datatype RulePlanNode = RulePlanNode(children: seq<string>)

  /** `RuleSpec`: the validated rule with its plan nodes keyed by fingerprint. */
  datatype RuleSpec = RuleSpec(text: string, root: string, nodes: map<string, RulePlanNode>)

  // ---------------------------------------------------------------------------
  // Fingerprint deserialisation
  // ---------------------------------------------------------------------------

  datatype FingerprintError = EmptyFingerprint

  /**
   * `deserialize_fingerprint`: a plan fingerprint that is empty or whitespace
   * only is refused while reading `ops.json`; any other is kept as written.
   */
  function DeserializeFingerprint(s: string): (r: Result<string, FingerprintError>)
    ensures r.Ok? <==> exists i :: 0 <= i < |s| && !IsWhitespace(s[i])
    ensures r.Ok? ==> r.value == s
  {
    BlankIffAllWhitespace(s);
    if IsBlank(s) then Err(EmptyFingerprint) else Ok(s)
  }

  /** A deserialised plan fingerprint never trims to nothing, so the empty-entry check cannot fire on it. */
  lemma DeserializedNotEmpty(s: string)
    requires DeserializeFingerprint(s).Ok?
    ensures Trim(DeserializeFingerprint(s).value) != []
  {
  }

  // ---------------------------------------------------------------------------
  // The plan entries
  // ---------------------------------------------------------------------------

  /** The errors phase 3 reports. */
  predicate IsRuleError(e: OpsError) {
    e.EmptyPlanFingerprint? || e.DuplicatePlanFingerprint? || e.UnknownPlanFingerprint? || e.MissingPlanParent? || e.SinkCount?
  }

  /** The keys the plan entries are filed under: their trimmed fingerprints. */
  ghost function PlanKeys(plan: seq<RawPlanNode>): (keys: seq<string>)
    ensures |keys| == |plan|
  {
    seq(|plan|, k requires 0 <= k < |plan| => Trim(plan[k].fingerprint))
  }

  /** Entry `k` repeats the key of an earlier entry. */
  ghost predicate RepeatsKey(keys: seq<string>, k: nat)
    requires k < |keys|
  {
    exists j :: 0 <= j < k && keys[j] == keys[k]
  }

  /** Entry `k` passes the checks as written: non-empty and a known fingerprint. */
  ghost predicate EntryPassesAsWritten(keys: seq<string>, k: nat, known: set<string>)
    requires k < |keys|
  {
    keys[k] != [] && keys[k] in known
  }

  /** Entry `k` passes all three checks: non-empty, not repeated, a known fingerprint. */
  ghost predicate EntryPasses(keys: seq<string>, k: nat, known: set<string>)
    requires k < |keys|
  {
    EntryPassesAsWritten(keys, k, known) && !RepeatsKey(keys, k)
  }

  ghost predicate PlanAcceptedAsWritten(keys: seq<string>, n: nat, known: set<string>)
    requires n <= |keys|
  {
    forall k :: 0 <= k < n ==> EntryPassesAsWritten(keys, k, known)
  }

  ghost predicate PlanAccepted(keys: seq<string>, n: nat, known: set<string>)
    requires n <= |keys|
  {
    forall k :: 0 <= k < n ==> EntryPasses(keys, k, known)
  }

  /** The first `n` entries pass: as written, or with the repeat check the message intends. */
  ghost predicate PlanPasses(keys: seq<string>, n: nat, known: set<string>, asWritten: bool)
    requires n <= |keys|
  {
    if asWritten then PlanAcceptedAsWritten(keys, n, known) else PlanAccepted(keys, n, known)
  }

  /**
   * `raw_parents` after the first `n` entries, as sets: each key holds the
   * parents of the last entry filed under it.
   */
  ghost function PlanParents(keys: seq<string>, plan: seq<RawPlanNode>, n: nat): map<string, set<string>>
    requires n <= |keys| == |plan|
  {
    if n == 0 then map[] else PlanParents(keys, plan, n - 1)[keys[n - 1] := Elems(plan[n - 1].parents)]
  }

  /** The keys of `PlanParents` are the keys of the entries. */
  lemma {:induction false} PlanParentsKeys(keys: seq<string>, plan: seq<RawPlanNode>, n: nat)
    requires n <= |keys| == |plan|
    ensures forall fp :: fp in PlanParents(keys, plan, n) <==> exists k :: 0 <= k < n && keys[k] == fp
  {
    if n > 0 {
      PlanParentsKeys(keys, plan, n - 1);
    }
  }

  /** With no repeated key, every key holds the parents of its only entry. */
  lemma {:induction false} PlanParentsOfEntry(keys: seq<string>, plan: seq<RawPlanNode>, n: nat, known: set<string>, k: nat)
    requires n <= |keys| == |plan| && PlanAccepted(keys, n, known) && k < n
    ensures keys[k] in PlanParents(keys, plan, n)
    ensures PlanParents(keys, plan, n)[keys[k]] == Elems(plan[k].parents)
  {
    if k < n - 1 {
      assert PlanAccepted(keys, n - 1, known);
      PlanParentsOfEntry(keys, plan, n - 1, known, k);
      assert keys[n - 1] != keys[k] by {
        assert EntryPasses(keys, n - 1, known);
      }
    }
  }

  /** The entry a rejected plan is reported for: every earlier entry passed, this one did not. */
  ghost predicate FirstRejected(keys: seq<string>, k: nat, known: set<string>, asWritten: bool)
  {
    && k < |keys|
    && (forall j :: 0 <= j < k ==> (if asWritten then EntryPassesAsWritten(keys, j, known) else EntryPasses(keys, j, known)))
    && !(if asWritten then EntryPassesAsWritten(keys, k, known) else EntryPasses(keys, k, known))
  }

  /** The error for a rejected entry: emptiness first, then repetition (when checked), then an unknown fingerprint. */
  ghost predicate ReportsEntry(e: OpsError, text: string, keys: seq<string>, k: nat, known: set<string>, asWritten: bool)
    requires k < |keys|
  {
    var fp := keys[k];
    && (fp == [] ==> e == EmptyPlanFingerprint(text))
    && (fp != [] && !asWritten && RepeatsKey(keys, k) ==> e == DuplicatePlanFingerprint(text, fp))
    && (fp != [] && (asWritten || !RepeatsKey(keys, k)) ==> fp !in known && e == UnknownPlanFingerprint(text, fp))
  }

  /** The plan is rejected at entry `k` with error `e`. */
  ghost predicate RejectedAt(e: OpsError, text: string, keys: seq<string>, k: nat, known: set<string>, asWritten: bool) {
    FirstRejected(keys, k, known, asWritten) && ReportsEntry(e, text, keys, k, known, asWritten)
  }

  /** An entry that fails its checks after all earlier ones passed rejects the whole plan. */
  lemma Reject(e: OpsError, text: string, keys: seq<string>, i: nat, known: set<string>, asWritten: bool)
    requires i < |keys|
    requires asWritten ==> PlanAcceptedAsWritten(keys, i, known) && !EntryPassesAsWritten(keys, i, known)
    requires !asWritten ==> PlanAccepted(keys, i, known) && !EntryPasses(keys, i, known)
    requires ReportsEntry(e, text, keys, i, known, asWritten)
    ensures exists k :: RejectedAt(e, text, keys, k, known, asWritten)
    ensures asWritten ==> !PlanAcceptedAsWritten(keys, |keys|, known)
    ensures !asWritten ==> !PlanAccepted(keys, |keys|, known)
  {
    assert RejectedAt(e, text, keys, i, known, asWritten);
  }

  /** The loop state after `n` entries: the map holds `PlanParents`, each list ascending. */
  ghost predicate HoldsPlanParents(raw: map<string, seq<string>>, keys: seq<string>, plan: seq<RawPlanNode>, n: nat)
    requires n <= |keys| == |plan|
  {
    && raw.Keys == PlanParents(keys, plan, n).Keys
    && (forall fp :: fp in raw ==> Elems(raw[fp]) == PlanParents(keys, plan, n)[fp])
    && (forall fp :: fp in raw ==> StrictlySorted(raw[fp], StrLess))
  }

  /** Filing entry `i` under its fresh key keeps the loop state. */
  lemma FileEntry(raw: map<string, seq<string>>, keys: seq<string>, plan: seq<RawPlanNode>, i: nat, parents: seq<string>)
    requires i < |keys| == |plan| && HoldsPlanParents(raw, keys, plan, i)
    requires Elems(parents) == Elems(plan[i].parents) && StrictlySorted(parents, StrLess)
    ensures HoldsPlanParents(raw[keys[i] := parents], keys, plan, i + 1)
  {
  }

  /**
   * The plan-tree loop of phase 3 with the repeated-fingerprint check as the
   * message intends it: an entry whose trimmed fingerprint is empty, repeats
   * an earlier entry's, or is no node's fingerprint is an error; otherwise
   * the entry's parents, sorted and deduplicated, are filed under its key.
   */
  method CollectRawParents(text: string, plan: seq<RawPlanNode>, index: map<string, u32>)
    returns (r: Result<map<string, seq<string>>, OpsError>)
    ensures r.Ok? <==> PlanAccepted(PlanKeys(plan), |plan|, index.Keys)
    ensures r.Ok? ==> HoldsPlanParents(r.value, PlanKeys(plan), plan, |plan|)
    ensures r.Err? ==> exists k :: RejectedAt(r.error, text, PlanKeys(plan), k, index.Keys, false)
    ensures r.Err? ==> IsRuleError(r.error)
  {
    ghost var keys := PlanKeys(plan);
    var raw: map<string, seq<string>> := map[];
    for i := 0 to |plan|
      invariant PlanAccepted(keys, i, index.Keys)
      invariant HoldsPlanParents(raw, keys, plan, i)
    {
      PlanParentsKeys(keys, plan, i);
      var fp := Trim(plan[i].fingerprint);
      assert fp == keys[i];
      if fp == [] {
        Reject(EmptyPlanFingerprint(text), text, keys, i, index.Keys, false);
        return Err(EmptyPlanFingerprint(text));
      }
      if fp in raw {
        assert RepeatsKey(keys, i);
        Reject(DuplicatePlanFingerprint(text, fp), text, keys, i, index.Keys, false);
        return Err(DuplicatePlanFingerprint(text, fp));
      }
      if fp !in index {
        assert !RepeatsKey(keys, i);
        Reject(UnknownPlanFingerprint(text, fp), text, keys, i, index.Keys, false);
        return Err(UnknownPlanFingerprint(text, fp));
      }
      assert EntryPasses(keys, i, index.Keys);
      StrLessTotal(Elems(plan[i].parents));
      var parents := NormalizeParents(plan[i].parents, StrLess);
      FileEntry(raw, keys, plan, i, parents);
      raw := raw[fp := parents];
    }
    return Ok(raw);
  }

  /**
   * The plan-tree loop of phase 3 as written: the repeated-fingerprint check
   * consults the plan-node map, which is still empty while this loop runs, so
   * it never fires and a repeated entry replaces the earlier one.
   */
  method CollectRawParentsAsWritten(text: string, plan: seq<RawPlanNode>, index: map<string, u32>)
    returns (r: Result<map<string, seq<string>>, OpsError>)
    ensures r.Ok? <==> PlanAcceptedAsWritten(PlanKeys(plan), |plan|, index.Keys)
    ensures r.Ok? ==> HoldsPlanParents(r.value, PlanKeys(plan), plan, |plan|)
    ensures r.Err? ==> exists k :: RejectedAt(r.error, text, PlanKeys(plan), k, index.Keys, true)
    ensures r.Err? ==> IsRuleError(r.error)
  {
    ghost var keys := PlanKeys(plan);
    var raw: map<string, seq<string>> := map[];
    var nodesMap: map<string, RulePlanNode> := map[];
    for i := 0 to |plan|
      invariant PlanAcceptedAsWritten(keys, i, index.Keys)
      invariant HoldsPlanParents(raw, keys, plan, i)
    {
      var fp := Trim(plan[i].fingerprint);
      assert fp == keys[i];
      if fp == [] {
        Reject(EmptyPlanFingerprint(text), text, keys, i, index.Keys, true);
        return Err(EmptyPlanFingerprint(text));
      }
      if fp in nodesMap {
        return Err(DuplicatePlanFingerprint(text, fp));
      }
      if fp !in index {
        Reject(UnknownPlanFingerprint(text, fp), text, keys, i, index.Keys, true);
        return Err(UnknownPlanFingerprint(text, fp));
      }
      StrLessTotal(Elems(plan[i].parents));
      var parents := NormalizeParents(plan[i].parents, StrLess);
      FileEntry(raw, keys, plan, i, parents);
      raw := raw[fp := parents];
    }
    return Ok(raw);
  }

  /**
   * A plan that lists fingerprint "j" twice, first with parent "p" and then
   * with none, passes the checks as written and the later entry's parents
   * replace the earlier ones; the intended check rejects it.
   */
  lemma RepeatedPlanEntryAccepted()
    ensures var plan := [RawPlanNode("j", ["p"]), RawPlanNode("j", [])];
      && PlanAcceptedAsWritten(PlanKeys(plan), 2, {"j"})
      && !PlanAccepted(PlanKeys(plan), 2, {"j"})
      && PlanParents(PlanKeys(plan), plan, 2)["j"] == {}
  {
    var plan := [RawPlanNode("j", ["p"]), RawPlanNode("j", [])];
    TrimOfSolid("j");
    var keys := PlanKeys(plan);
    assert keys == ["j", "j"];
    assert keys[0] == keys[1];
    assert RepeatsKey(keys, 1);
    assert !EntryPasses(keys, 1, {"j"});
    assert Elems(plan[1].parents) == {};
  }

  /** Every key of an accepted plan is a known node fingerprint. */
  lemma PlanKeysKnown(keys: seq<string>, plan: seq<RawPlanNode>, known: set<string>)
    requires |keys| == |plan| && PlanAcceptedAsWritten(keys, |plan|, known)
    ensures PlanParents(keys, plan, |plan|).Keys <= known
  {
    PlanParentsKeys(keys, plan, |plan|);
    forall fp | fp in PlanParents(keys, plan, |plan|) ensures fp in known {
      var k :| 0 <= k < |plan| && keys[k] == fp;
      assert EntryPassesAsWritten(keys, k, known);
    }
  }

  // ---------------------------------------------------------------------------
  // Parent check and the inverted edges
  // ---------------------------------------------------------------------------

  /** Every parent named in the plan is itself a plan entry. */
  ghost predicate ParentsClosed<S>(raw: map<string, S>, has: (S, string) -> bool) {
    forall fp, p :: fp in raw && has(raw[fp], p) ==> p in raw
  }

  /** The entries that list `p` among their parents. */
  ghost function ChildrenIn(raw: map<string, seq<string>>, p: string): set<string> {
    set c | c in raw && p in raw[c]
  }

  /**
   * Entry `fp` is the first in ascending key order with a parent that is no
   * entry, and position `i` of its parent list holds the first such parent.
   */
  ghost predicate FirstMissingPlanParent(raw: map<string, seq<string>>, fp: string, i: int) {
    && fp in raw
    && FirstMissingAt(raw[fp], raw, i)
    && forall fp', p :: fp' in raw && StrLess(fp', fp) && p in raw[fp'] ==> p in raw
  }

  /** The parent-check loop over the entry keys `keys`, in their ascending order. */
  method CheckPlanParentsIn(text: string, raw: map<string, seq<string>>, keys: seq<string>)
    returns (r: Result<map<string, RulePlanNode>, OpsError>)
    requires Elems(keys) == raw.Keys && StrictlySorted(keys, StrLess)
    ensures r.Ok? <==> forall fp, p :: fp in raw && p in raw[fp] ==> p in raw
    ensures r.Ok? ==> r.value.Keys == raw.Keys && forall fp :: fp in r.value ==> r.value[fp].children == []
    ensures r.Err? ==> exists fp, i :: FirstMissingPlanParent(raw, fp, i) && r.error == MissingPlanParent(text, raw[fp][i])
  {
    var nodesMap: map<string, RulePlanNode> := map[];
    for i := 0 to |keys|
      invariant forall j, p :: 0 <= j < i && p in raw[keys[j]] ==> p in raw
      invariant nodesMap.Keys == set j | 0 <= j < i :: keys[j]
      invariant forall fp :: fp in nodesMap ==> nodesMap[fp].children == []
    {
      assert keys[i] in Elems(keys);
      var missing := FirstMissing(raw[keys[i]], raw);
      if missing.Some? {
        StrLessTotal(Elems(keys));
        forall fp', p | fp' in raw && StrLess(fp', keys[i]) && p in raw[fp'] ensures p in raw {
          BeforeInSorted(keys, StrLess, i, fp');
        }
        return Err(MissingPlanParent(text, missing.value));
      }
      if keys[i] !in nodesMap {
        nodesMap := nodesMap[keys[i] := RulePlanNode([])];
      }
    }
    forall fp, p | fp in raw && p in raw[fp] ensures p in raw {
      var j :| 0 <= j < |keys| && keys[j] == fp;
    }
    assert nodesMap.Keys == raw.Keys by {
      forall fp | fp in raw ensures fp in nodesMap {
        var j :| 0 <= j < |keys| && keys[j] == fp;
      }
    }
    return Ok(nodesMap);
  }

  /**
   * Phase 3, parent check: walking the entries in key order, a parent that is
   * no entry of the plan is an error naming it; each entry gets a plan node
   * with no children yet. The error names the first missing parent of the
   * first entry, in ascending key order, that has one.
   */
  method CheckPlanParents(text: string, raw: map<string, seq<string>>) returns (r: Result<map<string, RulePlanNode>, OpsError>)
    ensures r.Ok? <==> forall fp, p :: fp in raw && p in raw[fp] ==> p in raw
    ensures r.Ok? ==> r.value.Keys == raw.Keys && forall fp :: fp in r.value ==> r.value[fp].children == []
    ensures r.Err? ==> exists fp, i :: FirstMissingPlanParent(raw, fp, i) && r.error == MissingPlanParent(text, raw[fp][i])
  {
    StrLessTotal(raw.Keys);
    var keys := SortedElements(raw.Keys, StrLess);
    r := CheckPlanParentsIn(text, raw, keys);
  }

  /** The entries among the first `n` keys that list `p` among their parents. */
  ghost function ChildrenUpTo(raw: map<string, seq<string>>, keys: seq<string>, n: nat, p: string): set<string>
    requires n <= |keys|
  {
    set j | 0 <= j < n && keys[j] in raw && p in raw[keys[j]] :: keys[j]
  }

  /** Appending `child` under each of its parents. */
  method AddChild(m: map<string, RulePlanNode>, child: string, parents: seq<string>) returns (m': map<string, RulePlanNode>)
    requires forall p :: p in parents ==> p in m
    ensures m'.Keys == m.Keys
    ensures forall p :: p in m' ==>
      Elems(m'[p].children) == Elems(m[p].children) + (if p in parents then {child} else {})
  {
    m' := m;
    for k := 0 to |parents|
      invariant m'.Keys == m.Keys
      invariant forall p :: p in m' ==>
        Elems(m'[p].children) == Elems(m[p].children) + (if exists q :: 0 <= q < k && parents[q] == p then {child} else {})
    {
      var parent := parents[k];
      var node := if parent in m' then m'[parent] else RulePlanNode([]);
      m' := m'[parent := RulePlanNode(node.children + [child])];
    }
  }

  /** One more key adds itself to the children of each of its parents. */
  lemma ChildrenUpToStep(raw: map<string, seq<string>>, keys: seq<string>, i: nat, p: string)
    requires i < |keys| && keys[i] in raw
    ensures ChildrenUpTo(raw, keys, i + 1, p) == ChildrenUpTo(raw, keys, i, p) + (if p in raw[keys[i]] then {keys[i]} else {})
  {
  }

  /** Over all the keys, the children are every entry naming `p`. */
  lemma ChildrenUpToAll(raw: map<string, seq<string>>, keys: seq<string>, p: string)
    requires Elems(keys) == raw.Keys
    ensures ChildrenUpTo(raw, keys, |keys|, p) == ChildrenIn(raw, p)
  {
    forall c | c in ChildrenIn(raw, p) ensures c in ChildrenUpTo(raw, keys, |keys|, p) {
      var j :| 0 <= j < |keys| && keys[j] == c;
    }
  }

  /** The child-derivation loop over the entry keys `keys`, in their order. */
  method DeriveChildrenIn(raw: map<string, seq<string>>, empty: map<string, RulePlanNode>, keys: seq<string>)
    returns (m: map<string, RulePlanNode>)
    requires Elems(keys) == raw.Keys
    requires forall fp, p :: fp in raw && p in raw[fp] ==> p in raw
    requires empty.Keys == raw.Keys && forall fp :: fp in empty ==> empty[fp].children == []
    ensures m.Keys == raw.Keys
    ensures forall p :: p in m ==> Elems(m[p].children) == ChildrenIn(raw, p)
  {
    m := empty;
    for i := 0 to |keys|
      invariant m.Keys == raw.Keys
      invariant forall p :: p in m ==> Elems(m[p].children) == ChildrenUpTo(raw, keys, i, p)
    {
      assert keys[i] in Elems(keys);
      m := AddChild(m, keys[i], raw[keys[i]]);
      forall p | p in m ensures Elems(m[p].children) == ChildrenUpTo(raw, keys, i + 1, p) {
        ChildrenUpToStep(raw, keys, i, p);
      }
    }
    forall p | p in m ensures Elems(m[p].children) == ChildrenIn(raw, p) {
      ChildrenUpToAll(raw, keys, p);
    }
  }

  /**
   * Phase 3, child derivation: walking the entries in key order, each entry
   * is appended to the child list of each of its parents, so every plan node
   * ends up listing exactly the entries that name it as a parent.
   */
  method DeriveChildren(raw: map<string, seq<string>>, empty: map<string, RulePlanNode>) returns (m: map<string, RulePlanNode>)
    requires forall fp, p :: fp in raw && p in raw[fp] ==> p in raw
    requires empty.Keys == raw.Keys && forall fp :: fp in empty ==> empty[fp].children == []
    ensures m.Keys == raw.Keys
    ensures forall p :: p in m ==> Elems(m[p].children) == ChildrenIn(raw, p)
  {
    StrLessTotal(raw.Keys);
    var keys := SortedElements(raw.Keys, StrLess);
    m := DeriveChildrenIn(raw, empty, keys);
  }

  /** The normalisation loop over the plan-node keys `keys`, in their order. */
  method NormalizeChildrenIn(m: map<string, RulePlanNode>, keys: seq<string>) returns (m': map<string, RulePlanNode>)
    requires Elems(keys) == m.Keys
    ensures m'.Keys == m.Keys
    ensures forall p :: p in m' ==> StrictlySorted(m'[p].children, StrLess) && Elems(m'[p].children) == Elems(m[p].children)
  {
    m' := m;
    for i := 0 to |keys|
      invariant m'.Keys == m.Keys
      invariant forall p :: p in m' ==> Elems(m'[p].children) == Elems(m[p].children)
      invariant forall p :: p in m' && (exists j :: 0 <= j < i && keys[j] == p) ==> StrictlySorted(m'[p].children, StrLess)
    {
      assert keys[i] in Elems(keys);
      StrLessTotal(Elems(m'[keys[i]].children));
      var children := NormalizeParents(m'[keys[i]].children, StrLess);
      m' := m'[keys[i] := RulePlanNode(children)];
    }
    forall p | p in m' ensures StrictlySorted(m'[p].children, StrLess) {
      var j :| 0 <= j < |keys| && keys[j] == p;
    }
  }

  /** Phase 3: every child list sorted and deduplicated, in key order. */
  method NormalizeChildren(m: map<string, RulePlanNode>) returns (m': map<string, RulePlanNode>)
    ensures m'.Keys == m.Keys
    ensures forall p :: p in m' ==> StrictlySorted(m'[p].children, StrLess) && Elems(m'[p].children) == Elems(m[p].children)
  {
    StrLessTotal(m.Keys);
    var keys := SortedElements(m.Keys, StrLess);
    m' := NormalizeChildrenIn(m, keys);
  }

  /** The plan nodes with no children. */
  ghost function Sinks(m: map<string, RulePlanNode>): set<string> {
    set fp | fp in m && m[fp].children == []
  }

  /** Phase 3, sink: exactly one plan node may have no children, and it becomes the root. */
  method FindSink(text: string, m: map<string, RulePlanNode>) returns (r: Result<string, OpsError>)
    ensures r.Ok? <==> |Sinks(m)| == 1
    ensures r.Ok? ==> Sinks(m) == {r.value}
    ensures r.Err? ==> r.error == SinkCount(text, |Sinks(m)|)
  {
    StrLessTotal(m.Keys);
    var keys := SortedElements(m.Keys, StrLess);
    var sinks := Filter(keys, fp => fp in m && m[fp].children == []);
    assert Elems(sinks) == Sinks(m) by {
      forall fp | fp in Sinks(m) ensures fp in Elems(sinks) {
        var j :| 0 <= j < |keys| && keys[j] == fp;
      }
    }
    FilterStrictlySorted(keys, fp => fp in m && m[fp].children == [], StrLess);
    StrLessTotal(Elems(sinks));
    DistinctCard(sinks, StrLess);
    if |sinks| != 1 {
      return Err(SinkCount(text, |sinks|));
    }
    assert sinks[0] in Elems(sinks);
    assert Elems(sinks) == {sinks[0]};
    return Ok(sinks[0]);
  }

  // ---------------------------------------------------------------------------
  // One rule
  // ---------------------------------------------------------------------------

  /** `raw_parents` as validation leaves it, in its set form. */
  ghost function RuleParents(rule: RawRule): map<string, set<string>> {
    PlanParents(PlanKeys(rule.planTree), rule.planTree, |rule.planTree|)
  }

  /** The plan entries that name `p` as a parent. */
  ghost function RuleChildren(rule: RawRule, p: string): set<string> {
    set c | c in RuleParents(rule) && p in RuleParents(rule)[c]
  }

  /** The plan entries no entry names as a parent. */
  ghost function RuleSinks(rule: RawRule): set<string> {
    set fp | fp in RuleParents(rule) && RuleChildren(rule, fp) == {}
  }

  /** Every parent a plan entry names is itself an entry. */
  ghost predicate RuleParentsClosed(rule: RawRule) {
    forall fp, p :: fp in RuleParents(rule) && p in RuleParents(rule)[fp] ==> p in RuleParents(rule)
  }

  /**
   * A rule passes phase 3 exactly when its entries pass (non-empty and known
   * fingerprints; not repeated, unless `asWritten`), every parent is an
   * entry, and exactly one entry is nobody's parent.
   */
  ghost predicate RuleValid(rule: RawRule, known: set<string>, asWritten: bool) {
    && PlanPasses(PlanKeys(rule.planTree), |rule.planTree|, known, asWritten)
    && RuleParentsClosed(rule)
    && |RuleSinks(rule)| == 1
  }

  /**
   * Entry `fp` is the first entry, in ascending key order, naming a parent
   * that is no entry, and `p` is the smallest such parent it names.
   */
  ghost predicate FirstMissingRuleParent(rule: RawRule, fp: string, p: string) {
    && fp in RuleParents(rule)
    && p in RuleParents(rule)[fp] && p !in RuleParents(rule)
    && (forall q :: q in RuleParents(rule)[fp] && StrLess(q, p) ==> q in RuleParents(rule))
    && (forall fp', q :: fp' in RuleParents(rule) && StrLess(fp', fp) && q in RuleParents(rule)[fp'] ==> q in RuleParents(rule))
  }

  /**
   * The error phase 3 reports for a rule, in the order it checks: the first
   * rejected plan entry; once the entries pass, the first missing parent in
   * key order; once every parent is an entry, the number of sinks. Every
   * error names the rule's text.
   */
  ghost predicate ReportsRule(e: OpsError, rule: RawRule, known: set<string>, asWritten: bool) {
    var keys := PlanKeys(rule.planTree);
    && (!PlanPasses(keys, |keys|, known, asWritten) ==> exists k :: RejectedAt(e, rule.text, keys, k, known, asWritten))
    && (PlanPasses(keys, |keys|, known, asWritten) && !RuleParentsClosed(rule) ==>
          exists fp, p :: FirstMissingRuleParent(rule, fp, p) && e == MissingPlanParent(rule.text, p))
    && (PlanPasses(keys, |keys|, known, asWritten) && RuleParentsClosed(rule) ==>
          e == SinkCount(rule.text, |RuleSinks(rule)|))
  }

  /** The first missing parent the check finds in `raw` is the first one of the rule. */
  lemma MissingParentOnRule(rule: RawRule, raw: map<string, seq<string>>, fp: string, i: int)
    requires HoldsPlanParents(raw, PlanKeys(rule.planTree), rule.planTree, |rule.planTree|)
    requires FirstMissingPlanParent(raw, fp, i)
    ensures FirstMissingRuleParent(rule, fp, raw[fp][i])
  {
    var P := RuleParents(rule);
    var xs := raw[fp];
    assert xs[i] in Elems(xs);
    forall q | q in P[fp] && StrLess(q, xs[i]) ensures q in P {
      StrLessTotal(Elems(xs));
      BeforeInSorted(xs, StrLess, i, q);
    }
    forall fp', q | fp' in P && StrLess(fp', fp) && q in P[fp'] ensures q in P {
      assert q in Elems(raw[fp']);
    }
  }

  /** What phase 3 builds from a valid rule. */
  ghost predicate BuiltFrom(spec: RuleSpec, rule: RawRule, known: set<string>) {
    && spec.text == rule.text
    && spec.nodes.Keys == RuleParents(rule).Keys
    && spec.nodes.Keys <= known
    && (forall p :: p in spec.nodes ==>
          StrictlySorted(spec.nodes[p].children, StrLess) && Elems(spec.nodes[p].children) == RuleChildren(rule, p))
    && RuleSinks(rule) == {spec.root}
  }

  /**
   * The same plan as a whole rule: the rule passes phase 3 as written, with
   * "j" alone as its sink and the parent "p" of the first entry lost, while
   * the intended check rejects it.
   */
  lemma RepeatedPlanEntryRuleAccepted(text: string)
    ensures var rule := RawRule(text, [RawPlanNode("j", ["p"]), RawPlanNode("j", [])]);
      && RuleValid(rule, {"j"}, true)
      && !RuleValid(rule, {"j"}, false)
      && RuleParents(rule) == map["j" := {}]
      && RuleSinks(rule) == {"j"}
  {
    var rule := RawRule(text, [RawPlanNode("j", ["p"]), RawPlanNode("j", [])]);
    RepeatedPlanEntryAccepted();
    var keys := PlanKeys(rule.planTree);
    assert keys == ["j", "j"];
    assert PlanParents(keys, rule.planTree, 1).Keys == {"j"};
    assert RuleParents(rule) == map["j" := {}];
    assert RuleChildren(rule, "j") == {};
    assert RuleSinks(rule) == {"j"};
  }

  /** A plan node is a sink exactly when it lists no children. */
  lemma SinksAgree(rule: RawRule, m: map<string, RulePlanNode>)
    requires m.Keys == RuleParents(rule).Keys
    requires forall p :: p in m ==> Elems(m[p].children) == RuleChildren(rule, p)
    ensures Sinks(m) == RuleSinks(rule)
  {
    forall fp | fp in m ensures m[fp].children == [] <==> RuleChildren(rule, fp) == {} {
      if m[fp].children != [] {
        assert m[fp].children[0] in Elems(m[fp].children);
      }
    }
  }

  /**
   * One rule of phase 3: the rule is accepted exactly when it is valid, and
   * then every plan node lists, sorted and without repeats, the entries that
   * name it as a parent, and the root is the one node nobody names. With
   * `asWritten` the plan-tree loop is the one the code runs, which lets a
   * repeated entry through and keeps the parents of its last occurrence;
   * otherwise it is the loop with the repeat check the message intends.
   */
  method BuildRule(rule: RawRule, index: map<string, u32>, asWritten: bool) returns (r: Result<RuleSpec, OpsError>)
    ensures r.Ok? <==> RuleValid(rule, index.Keys, asWritten)
    ensures r.Ok? ==> BuiltFrom(r.value, rule, index.Keys)
    ensures r.Err? ==> ReportsRule(r.error, rule, index.Keys, asWritten)
    ensures r.Err? ==> IsRuleError(r.error)
  {
    var raw;
    if asWritten {
      raw := CollectRawParentsAsWritten(rule.text, rule.planTree, index);
    } else {
      raw := CollectRawParents(rule.text, rule.planTree, index);
    }
    if raw.Err? {
      return Err(raw.error);
    }
    assert PlanAcceptedAsWritten(PlanKeys(rule.planTree), |rule.planTree|, index.Keys) by {
      var keys := PlanKeys(rule.planTree);
      forall k | 0 <= k < |keys| ensures EntryPassesAsWritten(keys, k, index.Keys) {
        if !asWritten {
          assert EntryPasses(keys, k, index.Keys);
        }
      }
    }
    PlanKeysKnown(PlanKeys(rule.planTree), rule.planTree, index.Keys);
    var P := RuleParents(rule);
    assert forall fp, p :: fp in raw.value ==> (p in raw.value[fp] <==> p in P[fp]);
    var empty := CheckPlanParents(rule.text, raw.value);
    if empty.Err? {
      ghost var fp, i :| FirstMissingPlanParent(raw.value, fp, i) && empty.error == MissingPlanParent(rule.text, raw.value[fp][i]);
      MissingParentOnRule(rule, raw.value, fp, i);
      return Err(empty.error);
    }
    var m := DeriveChildren(raw.value, empty.value);
    assert forall p :: ChildrenIn(raw.value, p) == RuleChildren(rule, p);
    m := NormalizeChildren(m);
    SinksAgree(rule, m);
    var root := FindSink(rule.text, m);
    if root.Err? {
      return Err(root.error);
    }
    return Ok(RuleSpec(rule.text, root.value, m));
  }
}
