# flowlog profile visualizer: validation and aggregation core

This project is a Dafny model of the part of the flowlog profile visualizer
that turns a program's topology description and its Timely profiling logs into
report data. The HTML renderer then draws that report. The model covers both
generations of the pipeline found in the repository.

- **First generation** (`src/ops.rs`, `src/view.rs`, `src/log.rs`):
  - `ops.json` is a flat list of node rows, each with an id, an optional
    block, an optional fingerprint, tags, operator addresses and parent ids.
    Rules carry plan trees keyed by fingerprint.
  - `OpsSpec::validate_and_build` normalises and validates the rows and the
    plan trees.
  - `build_report_data` checks the time log against the memory log. It gives
    each operator address a single owner and builds a spanning tree over the
    parent relation, choosing the smallest parent as the primary one. It then
    sums each node's operator figures and the report totals. `build_rule_views`
    marks plan nodes with more than one parent as shared.
- **Second generation** (`src/spec/*.rs`, `src/model/mod.rs`, `src/log/parse.rs`):
  - `dag.json` is a name DAG. `DagSpec::validate_and_build` checks it and runs
    a three-colour depth-first search that rejects any cycle reachable from a
    root.
  - `OpsSpec::validate_and_build` maps each name to a set of operator
    addresses.
  - `build_report_data` inverts the `children` lists into parent lists. It
    keeps only the operators found in the log and orders them by time,
    descending. Each rule lists its "extras": nodes of the rule that lie
    outside its plan tree.
- **Shared pieces:** the `Addr` key with its derived lexicographic order, the
  bracketed address parser `parse_addr`, and the log loaders, which skip blank
  and header lines and reject a repeated address.

The modules follow the source files:

| module | file | models |
|---|---|---|
| `Address` | addr.dfy | src/spec/addr.rs |
| `Log` | log.dfy | src/log.rs |
| `LogParse` | log_parse.dfy | src/log/parse.rs |
| `Dag` | dag.dfy | src/spec/dag.rs |
| `SpecOps` | spec_ops.dfy | src/spec/ops.rs |
| `OpsNodes` | ops_nodes.dfy | src/ops.rs, phases 1 and 2 |
| `OpsRules` | ops_rules.dfy | src/ops.rs, phase 3 and `deserialize_fingerprint` |
| `Ops` | ops.dfy | src/ops.rs, the whole `validate_and_build` |
| `ReportTree` | report_tree.dfy | the ownership, parent inversion, spanning tree and plan-node views, which are written the same way in src/view.rs and src/model/mod.rs |
| `View` | view.dfy | src/view.rs |
| `Model` | model.dfy | src/model/mod.rs |

The supporting modules are:

- `Order`: sorting, `dedup`, `BTreeSet` iteration, and the orders on ids,
  strings and sequences.
- `Text`: `trim`, `split`, `join` and decimal digits.
- `Sums`: sums over sequences and maps.
- `Wrappers`: `Option` and `Result`.

The source's loops stay loops. Each loop is a method proved against a
specification function or predicate. The operations that fail return a
`Result` whose error constructor names what the source's message reports.

Points where the code differs from its description, or where the model had to
choose:

- The `NodeSpec` and `RuleSpec` that `src/model/mod.rs:4` imports from
  `crate::spec` are declared in none of the files.
  - `Model.NodeSpec` is declared from the fields `build_report_data` reads:
    label, block, fingerprint, tags, rule, children and operators.
  - For `RuleSpec`, the model uses the first-generation one (text, root, and
    plan nodes with child lists).
- `src/main.rs:50` calls `model::build_report_data` with three arguments. The
  function at `src/model/mod.rs:82-88` takes five. The model follows the
  function as written.
- src/addr.rs is not part of this model. The first generation imports `Addr`
  from it, and the model uses `Address.Addr` for both generations.
- `src/view.rs` reads `fingerprint_to_node` as a map from strings to strings,
  while `src/ops.rs` builds a map from fingerprints to `u32` ids. The model
  takes the string map as `view.rs` declares it.
- `src/view.rs` renders each `u32` parent id as a decimal string and sorts the
  strings, so `"10"` sorts before `"9"` (`View.NormalizedParentNames`).
- The `op_name` check inside the per-operator loop, at src/view.rs:240-250,
  is modelled as written (`View.CountOperator`). `View.NextView` shows that
  the check cannot fire once the phase-0 check at src/view.rs:110-123 has
  passed.
- The tree lists are filled in ascending key order and then sorted
  (src/view.rs:176-178, src/model/mod.rs:141-143). The model keeps the sort
  (`ReportTree.SortEach`) even though the lists are already ascending.
- In the second generation the log index is keyed by each row's own address.
  `LogParse.ParseLogFile` proves this (`r.value[a].addr == a`). It is the
  precondition `Model.LogKeyed` of `Model.BuildReportData`.
- Both report builders add each operator's figures to a name's `self_*` sums
  and to the report totals, one row at a time. The model adds each name's sums
  to the totals once per name. The values are the same, since addition
  commutes.

## Model

| member | source | states |
|---|---|---|
| Address.New | src/spec/addr.rs:11-13 | `Addr::new` wraps the path unchanged. |
| Address.NewInjective | src/spec/addr.rs:11-13 | Distinct paths give distinct addresses. |
| Address.EqualIffElementwise | src/spec/addr.rs:7-8 | Two addresses are equal exactly when their paths have the same length and agree element by element. |
| Address.LessStrictTotal | src/spec/addr.rs:7-8 | The derived `Ord` on addresses is irreflexive, transitive and total, so addresses can key ordered maps and sets. |
| Address.LessEqTotalOrder | src/spec/addr.rs:5-8 | `<=` on addresses is reflexive, antisymmetric, transitive and connex. |
| Address.PrefixSortsFirst | src/spec/addr.rs:7-8 | A proper prefix sorts before every extension of it. |
| Log.ParseU32OfNatToString | src/log.rs:261 | The decimal text of every `u32` reads back as that `u32`. |
| Log.ParseElements | src/log.rs:254-265 | The loop over the comma-separated pieces returns what `ParseAddrSpec` prescribes: blank pieces skipped, and the first bad piece is the error. |
| Log.ParseAddr | src/log.rs:242-266 | `parse_addr` returns exactly `ParseAddrSpec(s)`. The copy at src/log/parse.rs:81-102 has the same text and the same model. |
| Log.BracketsRequired | src/log.rs:243-253 | Input that is not bracketed after trimming is rejected. A bracketed input with a blank interior parses to the empty address. |
| Log.BlankPartIgnored | src/log.rs:255-259 | Dropping a blank piece does not change the outcome, so `"[1,,2]"` reads as `[1,2]`. |
| Log.BadPartRejected | src/log.rs:260-263 | A non-blank piece that is not a `u32` makes the whole parse of the pieces fail. |
| Log.OverflowRejected | src/log.rs:260-263 | The decimal text of any number of 2^32 or more is not a `u32`: overflow is rejected, not wrapped. |
| Log.FormatThenParse | src/log.rs:241 | Formatting any path as `"[" + join(", ") + "]"` and parsing it gives the same address back (also the example at src/log/parse.rs:80). |
| Log.LoadRows | src/log.rs:57-146 | The line loop of both loaders returns exactly `LoadSpec`, the fold of one line step over the lines. |
| Log.LoadUpToCorrect | src/log.rs:58-144 | The loop gets past line `n` exactly when every non-skipped line so far matched, its numbers fit and its address parsed, and no address repeats. The index then holds one entry per row, built from that row. |
| Log.LoadSpecCorrect | src/log.rs:57-146 | The same over the whole log: success exactly when rows parse and addresses are distinct, and then one entry per row. |
| Log.FirstErrorStands | src/log.rs:72-143 | Once a line fails, later lines cannot change the outcome. |
| Log.SkippedLineStep | src/log.rs:62-70 | A blank or header line leaves the index unchanged. |
| Log.RepeatedRowStep | src/log.rs:135-143 | A row whose address is already in the index is the `DuplicateAddr` error for that line. |
| Log.BlankLinesSkipped | src/log.rs:60-70 | A blank or whitespace-only line and a header line are skipped by both loaders. |
| Log.LoadTimeLog | src/log.rs:44-147 | `parse_time_file`: succeeds exactly when every row parses and no address repeats, and then indexes each row under its address. |
| Log.LoadMemoryLog | src/log.rs:156-239 | `parse_memory_file`: the same, with the memory header and the five `u64` counts. |
| LogParse.ParseLogFile | src/log/parse.rs:14-78 | `parse_log_file`: the same success condition and index, and every row sits under its own address. |
| Dag.MakeNode | src/spec/dag.rs:62-68 | A node's label is its declared label, or its name when none is declared. |
| Dag.CollectNodes | src/spec/dag.rs:57-69 | The node loop fails exactly when two nodes share a name, reporting a repeated name. Otherwise it maps every name to its node. |
| Dag.CollectedKeys | src/spec/dag.rs:57-69 | The node map is keyed by exactly the declared names. |
| Dag.SpecNodes | src/spec/dag.rs:56-72 | Phase 1 succeeds exactly when the names are distinct and there is a node. A repeated name fails with the duplicate-name error for a name that occurs twice; with distinct names the only failure is the no-nodes error. |
| Dag.BuildAdjacency | src/spec/dag.rs:74-86 | The edge loop fails exactly when some edge has an unknown endpoint, naming the first one and checking `src` before `dst`. Otherwise `children` and `parents` are the edge lists. |
| Dag.OneEntryPerEdge | src/spec/dag.rs:84-85 | `dst` occurs in `children[src]`, and `src` in `parents[dst]`, exactly as many times as the edge is listed. |
| Dag.ChildrenParentsInverse | src/spec/dag.rs:84-85 | `dst` is in `children[src]` exactly when `src` is in `parents[dst]`, exactly when the edge is listed. |
| Dag.ParentKeys | src/spec/dag.rs:85 | A name has a `parents` entry exactly when an edge ends at it, and that entry is never empty. |
| Dag.ResolveRoots | src/spec/dag.rs:88-105 | Declared roots must all be nodes and are kept as declared. With none declared, the roots are the parentless nodes in ascending name order. No root at all is an error. |
| Dag.InferredRootsAreUnpointed | src/spec/dag.rs:97-101 | The parentless nodes are exactly the nodes no edge points to. |
| Dag.SpecAdjacency | src/spec/dag.rs:77-86 | Phase 2 succeeds exactly when every edge endpoint is a declared name. A failure reports the first edge with an unknown endpoint: its unknown source if the source is unknown, else its unknown destination. |
| Dag.SpecRoots | src/spec/dag.rs:88-105 | Phase 3 succeeds exactly when every declared root is a name and the resolved root set is non-empty. A failure reports the first unknown declared root or, with no roots declared, the no-roots error. |
| Dag.BuildGraph | src/spec/dag.rs:56-105 | Phases 1 to 3 succeed exactly when the spec is well formed. The first phase that fails decides the error: a repeated name, then no nodes, then the first edge with an unknown endpoint, then the first unknown declared root or no roots. |
| Dag.EnterKeepsState | src/spec/dag.rs:131-132 | Marking an unmarked name `Temp` and pushing it keeps the search invariant: `Temp` names are exactly the stack. |
| Dag.FinishKeepsState | src/spec/dag.rs:140-141 | Popping a name whose children are all finished and marking it `Perm` keeps the invariant and gives it a rank above its children's. |
| Dag.Dfs | src/spec/dag.rs:114-143 | A `Perm` name returns at once with the marks unchanged. Reaching a `Temp` name reports the stack plus that name, a walk that ends on a name it already visited. On success the stack is restored, the name is `Perm`, and marks are only ever added. |
| Dag.SearchChildren | src/spec/dag.rs:134-138 | The children are searched in edge order and the first cycle stops the loop. On success every child is `Perm`. |
| Dag.RanksFallAlongWalk | src/spec/dag.rs:122-124 | Along any walk from a `Perm` name every name is `Perm` and the ranks fall strictly, so no walk from it repeats a name. |
| Dag.FinishedRootsAcyclic | src/spec/dag.rs:145-151 | Once every root is `Perm`, no cycle is reachable from a root. |
| Dag.ReportedCycleReachable | src/spec/dag.rs:125-128 | A reported path that starts at a root witnesses a cycle reachable from that root. |
| Dag.CycleFromRoot | src/spec/dag.rs:147-151 | A cycle reported while searching from `roots[i]` starts at that root and refutes acyclicity. |
| Dag.CheckAcyclic | src/spec/dag.rs:145-151 | The driver succeeds exactly when no cycle is reachable from a root. A failure names a root and a walk from it that ends on a repeated name. |
| Dag.ValidateAndBuild | src/spec/dag.rs:53-159 | Succeeds exactly on a valid spec. It then returns the labelled nodes, one `children`/`parents` entry per edge, the resolved roots (declared, or the parentless nodes ascending), and no cycle reachable from them. A spec that is not well formed fails with the error of its first failing phase, as `Dag.BuildGraph` states it. A well-formed spec can fail only with a cycle error, which names a root and a walk from it that returns to a visited name. |
| SpecOps.ValidateAndBuild | src/spec/ops.rs:35-59 | Fails exactly when some group names no DAG node, reporting the first such group. Otherwise the keys are exactly the group names, all DAG nodes, and each name holds the union of the addresses of every group with that name. |
| OpsNodes.NormalizedFingerprint | src/ops.rs:130-135 | The normalised fingerprint is absent exactly when the raw one is absent or all whitespace. Otherwise it is the raw text with whitespace cut from the ends only, and it is non-empty and solid at both ends. |
| OpsNodes.NormalizeParents | src/ops.rs:335-340 | `normalize_parents` returns a strictly ascending list with the same elements as its input. |
| OpsNodes.NormalizeNode | src/ops.rs:128-151 | A normalised row keeps its id, label and tags. It takes block `"other"` when none is given, the normalised fingerprint, the normalised parents and the set of its addresses. |
| OpsNodes.KeyById | src/ops.rs:116-152 | The node loop fails exactly on a repeated id, naming it. Otherwise every row is normalised under its id and nothing else is present. |
| OpsNodes.BuildNodes | src/ops.rs:115-159 | Phase 1 succeeds exactly when ids are distinct and there is at least one row. The result has one normalised node per id. |
| OpsNodes.IndexFingerprints | src/ops.rs:161-179 | Fails exactly when two nodes of one block share a fingerprint, naming the block, the fingerprint and both ids, smaller first. Otherwise it maps each fingerprint in use to the smallest id carrying it. |
| OpsNodes.ComputeRoots | src/ops.rs:181-189 | The roots are exactly the ids with no parents, strictly ascending. |
| OpsNodes.CheckParents | src/ops.rs:191-204 | Fails exactly when some parent id names no node. The error names the first such node in ascending id order and the first missing parent in its list. |
| OpsRules.DeserializeFingerprint | src/ops.rs:350-363 | A plan fingerprint that is empty or whitespace only is refused. Any other is kept as written. |
| OpsRules.DeserializedNotEmpty | src/ops.rs:213-222 | A deserialised plan fingerprint never trims to nothing. |
| OpsRules.PlanParentsOfEntry | src/ops.rs:242-243 | With no repeated key, every plan key holds the parents of its only entry. |
| OpsRules.CollectRawParents | src/ops.rs:212-244 | The corrected plan-entry loop fails exactly when an entry's trimmed fingerprint is empty, repeats an earlier one, or is no node's fingerprint, reporting the first such entry. Otherwise each key holds its entry's parents. |
| OpsRules.CollectRawParentsAsWritten | src/ops.rs:212-244 | The loop as written, whose repeat check never fires: it fails exactly on an empty or unknown fingerprint, and a later entry replaces an earlier one with the same key. |
| OpsRules.RepeatedPlanEntryAccepted | src/ops.rs:223-231 | The plan `j <- p`, `j <- (none)` passes as written and drops the parent `p`, while the intended check rejects it. |
| OpsRules.RepeatedPlanEntryRuleAccepted | src/ops.rs:212-305 | A rule with that plan is valid as written, with `j` as its only sink and no parents left, and invalid under the intended check. |
| OpsRules.PlanKeysKnown | src/ops.rs:232-240 | Every key of an accepted plan is a known node fingerprint. |
| OpsRules.CheckPlanParents | src/ops.rs:246-262 | Fails exactly when some parent is not a plan entry. The error names the first missing parent of the first entry, in ascending key order, that has one. Otherwise every entry gets a plan node with no children. |
| OpsRules.MissingParentOnRule | src/ops.rs:246-258 | The missing parent the check reports is the smallest missing parent of the first entry, in key order, that has one, stated on the rule's parent sets. |
| OpsRules.DeriveChildren | src/ops.rs:264-275 | Every plan node ends up listing exactly the entries that name it as a parent. |
| OpsRules.ChildrenUpToAll | src/ops.rs:265-275 | Over all the keys, the children pushed for `p` are every entry naming `p`. |
| OpsRules.NormalizeChildren | src/ops.rs:276-279 | Every child list becomes strictly ascending with the same elements. |
| OpsRules.SinksAgree | src/ops.rs:282-285 | A plan node lists no children exactly when no entry names it as a parent. |
| OpsRules.FindSink | src/ops.rs:281-298 | Fails exactly when the number of childless plan nodes is not one, reporting that number. Otherwise the root is the one sink. |
| OpsRules.BuildRule | src/ops.rs:208-305 | A rule is accepted exactly when its entries pass, every parent is an entry and exactly one entry is nobody's parent. The entry checks are the code's when `asWritten` is set, where a repeated entry passes and its last occurrence's parents count. Otherwise they include the intended repeat check. Each plan node then lists, ascending and without repeats, the entries naming it, and the root is the sink. A failure carries the rule's text and the first failing check's error: the first rejected entry; then the smallest missing parent of the first entry, in key order, that has one; then the number of sinks. |
| Ops.BuildNodeTables | src/ops.rs:115-204 | Phases 1 and 2 succeed exactly on valid rows, each failing with its own error in phase order. They return the keyed nodes, the smallest-id fingerprint index and the ascending parentless ids. |
| Ops.UniqueOnRows | src/ops.rs:165-179 | Per-block fingerprint uniqueness on the node map is the same condition stated on the raw rows. |
| Ops.ParentsOnRows | src/ops.rs:192-204 | Every parent exists on the node map exactly when it does on the raw rows, and the map's keys are the raw ids. |
| Ops.RootsOnRows | src/ops.rs:182-189 | The parentless ids of the node map are those of the raw rows. |
| Ops.KnownOnRows | src/ops.rs:163-178 | The fingerprint index has exactly the normalised fingerprints of the rows as keys. |
| Ops.BuildRules | src/ops.rs:206-305 | Phase 3 accepts exactly when every rule is valid under the chosen repeat check (as written or as intended), and then builds one rule per raw rule, in order. A failure is the first invalid rule's own error, as `OpsRules.BuildRule` states it. |
| Ops.CollectRuleFingerprints | src/ops.rs:308-311 | The collected set is the union of the plan keys of all built rules. |
| Ops.RecordedOnRules | src/ops.rs:308-311 | The plan keys of the built rules are the plan fingerprints of the raw rules. |
| Ops.CheckRecorded | src/ops.rs:312-324 | Fails exactly when some fingerprinted node's fingerprint is in no rule. The error names the smallest such node id and its fingerprint. |
| Ops.UnrecordedOnRows | src/ops.rs:312-324 | On the rows, the node phase 4 reports has the smallest id of any row whose fingerprint no plan tree lists. |
| Ops.RecordedOnRows | src/ops.rs:312-324 | Every fingerprinted node is recorded exactly when the rows' fingerprints are all planned. |
| Ops.ValidateAndBuild | src/ops.rs:114-332 | Accepted exactly when rows and rules are valid, with phase 3's repeat check as written or as intended. It then keys every row under its id and lists the parentless ids ascending. It indexes each fingerprint by its smallest id and builds one rule per raw rule. The first failing check decides the error: phases 1 and 2 by kind, in order; phase 3 with the first invalid rule's own error; phase 4 with the smallest id of a row whose fingerprint no plan tree lists. |
| ReportTree.AssignOwnersIn | src/view.rs:126-141 | The ownership loop over the names in the given order succeeds exactly when no address is listed twice. It then maps every listed address to its name. Otherwise it reports a clash between an earlier and a later name. |
| ReportTree.AssignOwners | src/view.rs:125-141 | Phase 1 with names ascending: `Ok` exactly when owners are unique. Otherwise it reports an address listed by two names, the smaller first. The same phase is src/model/mod.rs:89-102. |
| ReportTree.OwnerIsUnique | src/view.rs:126-141 | With owners unique, the owner relation is a function: the only map from listed addresses to names that list them. |
| ReportTree.InvertChildren | src/model/mod.rs:109-116 | Each child's parent list is ascending and holds each name as often as that name lists the child. The list exists exactly when something names the child. The plan-node parents at src/view.rs:331-336 are the same inversion. |
| ReportTree.ParentsInverse | src/view.rs:331-336 | A value occurs in a parent list exactly when its child list names the child. |
| ReportTree.ParentCount | src/view.rs:346-347 | When no child list repeats a child, a parent list's length is the number of distinct parents. |
| ReportTree.PrimaryIsSmallest | src/view.rs:151-165 | The primary parent is the smallest parent and the extras are the others, ascending. A node without parents has neither. |
| ReportTree.TreeChildren | src/view.rs:167-178 | Each tree list holds exactly the nodes whose primary parent is its key, ascending. The same tree is built at src/model/mod.rs:132-143. |
| ReportTree.TreePartition | src/view.rs:167-178 | A node lies in the list of its own primary parent and in no other. |
| ReportTree.PlanNodeViews | src/view.rs:338-360 | One view per plan node, with its node name and label looked up and its parents the inverse of the child lists. A node is shared exactly when its parent list is longer than one. The same views are built at src/model/mod.rs:256-278. |
| ReportTree.SharedIffManyParents | src/view.rs:346-347 | When child lists never repeat a child, as validation leaves them, a plan node is shared exactly when more than one plan node lists it. |
| View.CheckOpNames | src/view.rs:110-123 | Phase 0 reports nothing exactly when the two logs agree on every common address's `op_name`. Otherwise it reports the smallest disagreeing address. |
| View.NormalizedParentNames | src/view.rs:147 | A node's parent names are the decimal names of its parent ids, strictly ascending as strings. |
| View.NormalizeAll | src/view.rs:145-149 | One such list per name. |
| View.SplitParents | src/view.rs:151-165 | Every name gets no primary and no extras when it has no parents. Otherwise it gets the first of its list as primary and the rest as extras. |
| View.CollectRoots | src/view.rs:183-190 | The roots are the declared roots and every name with no primary parent, strictly ascending. |
| View.CountOperator | src/view.rs:211-277 | One address fails exactly on the in-loop `op_name` check. Otherwise its view is added: a missing time row reads as zero and no name, and the address counts as mapped exactly when it is in the time log. The memory flag is set exactly when it has a memory row. |
| View.SumsGrow | src/view.rs:220-261 | Appending one view adds its figures to each of the seven sums. |
| View.TallyOperators | src/view.rs:211-278 | Each address gets its view, the sums are the sums over the views, and the mapped count is the number of addresses found in the time log. |
| View.OneViewPerAddr | src/view.rs:267-281 | Every owned address has exactly one operator view. |
| View.AscendingViews | src/view.rs:280-281 | The views, in ascending address order, are the name's operators. |
| View.NodeView | src/view.rs:200-305 | A name's view fails only on the in-loop `op_name` check, never once the logs agree. It holds the operators ascending by address, the sums over them, the memory flag and fields, and the tree and parent lists. |
| View.NextView | src/view.rs:240-250 | After phase 0 has passed, the in-loop check cannot fire and the name's view joins the map. |
| View.NodeViews | src/view.rs:192-305 | One view per name, with running totals equal to the sums over those views. |
| View.BuildRuleViews | src/view.rs:322-370 | One rule view per rule, in order, each holding its plan-node views. |
| View.DeriveTree | src/view.rs:143-190 | Phase 2 returns the normalised parent lists, the primary and extra parents, the tree and its roots. |
| View.NodesAssembled | src/view.rs:283-304 | Each name's view, built from the phases' maps, is as the report describes it. |
| View.TotalsAssembled | src/view.rs:307-316 | The totals are the name count, the time-log size, the owned addresses found in the time log and the sums over the name views. |
| View.BuildReportData | src/view.rs:102-320 | Fails exactly when the logs name an operator differently, reporting the smallest such address, or when two names list one address, naming both ascending. Otherwise the report is as `IsReport` describes: node views, tree, roots, rule views and totals. |
| Model.PrimaryParentIsSmallest | src/model/mod.rs:118-130 | For a sorted parent list with one entry per child-list mention, the first entry is the smallest name listing the node. The rest are the other mentions, repeats kept. |
| Model.SplitParents | src/model/mod.rs:118-130 | Every name gets the smallest of the names listing it as primary, and the other mentions as extras. |
| Model.CollectRoots | src/model/mod.rs:145-153 | The roots are the declared roots and every name with no primary parent, strictly ascending. |
| Model.CollectOperators | src/model/mod.rs:169-197 | Only the addresses found in the log produce views. The activation and time sums and the mapped count are those of the found rows. |
| Model.BeforeTotal | src/model/mod.rs:200-205 | Time descending, then address ascending, is a strict total order on views of distinct addresses. |
| Model.OrderOperators | src/model/mod.rs:199-205 | Sorting gives each found address's view once, strictly ordered by time descending then address, with the same sums. |
| Model.OneViewPerFoundAddr | src/model/mod.rs:169-205 | An address has a view exactly when it is owned and in the log, and no address has two. |
| Model.NodeView | src/model/mod.rs:162-223 | A name's view holds its label, block, fingerprint, tags, rule, tree children, DAG children, extra parents, found operators in time order and their sums. It counts its found addresses. |
| Model.NodeViews | src/model/mod.rs:155-224 | One view per name, with running totals equal to the sums over those views. |
| Model.RuleExtras | src/model/mod.rs:280-299 | A rule's extras are exactly the names whose rule is this rule and whose fingerprint is absent or outside the plan, strictly ascending. |
| Model.BuildRuleViews | src/model/mod.rs:240-310 | One rule view per rule, in order, with its plan-node views and extras. |
| Model.TreeListAssembled | src/model/mod.rs:132-143 | The tree lists hold, for each name, exactly the names whose smallest parent it is. |
| Model.TreePartitionsNames | src/model/mod.rs:132-143 | A name sits in some view's tree children exactly when something lists it as a child, and then in exactly one. |
| Model.RootsAssembled | src/model/mod.rs:145-153 | The names without a primary parent are exactly the names no child list mentions. |
| Model.TotalsAssembled | src/model/mod.rs:226-234 | The totals are the name count, the log size, the owned addresses found in the log and the sums over the name views. |
| Model.BuildReportData | src/model/mod.rs:82-238 | Fails exactly when two names list one address, naming both ascending. Otherwise the report holds the node views, the tree, the roots, the rule views and the totals as `IsReport` describes. |

## Left out

- File reading, writing the HTML, the command line in `src/main.rs` and the
  renderer are not modelled.
- The regular-expression match of a log line is not modelled. A log is a
  sequence of lines, each with its text and, when the pattern matched, the
  captured address text and fields. `parse::<u64>` on a captured count is
  modelled as "the value is below 2^64".
- JSON deserialisation is not modelled: the specs arrive as datatypes. Of
  serde's behaviour only `deserialize_fingerprint` is kept.
- Error messages are not modelled as text. Each error is a constructor that
  carries what the message names (ids, names, addresses, line numbers).
  `diagnostics::error_message` and `anyhow` contexts are left out.
- The warnings printed for an owned address missing from the time log or the
  log (`diagnostics::warn`, `eprintln!`) are not modelled. They change no
  result.
- `total_active_ms` is an `f64` in the source. The model uses `nat`: sums are
  exact, and the `partial_cmp` ordering at src/model/mod.rs:200-205 is integer
  comparison. NaN and rounding are not modelled.
- `u64` and `usize` counters are `nat`. Overflow, which panics or wraps in
  Rust, is not modelled.
- Model.OrderOperators: `sort_by` is stable, but its comparator never ties on
  views of distinct addresses, so the contract states only the strict order.
  Stability is not stated.
- The `has_memory_data` flag and the five memory figures of a first-generation
  name view are modelled. `total_batched_in` is checked as the sum over the name
  views, not per memory row.
- The duplicate-fingerprint check of src/ops.rs:223 is modelled both as written
  and as intended (see Findings). The phase-3 and whole-validation members
  take an `asWritten` flag that picks one.
- OpsRules.BuildRule: with `asWritten` clear it rejects a repeated plan entry,
  which the code does not; with it set it follows the code.
- Ops.BuildRules: the same flag, passed to each rule.
- Ops.ValidateAndBuild: the same flag, passed to phase 3. Errors of phases 1
  and 2 are stated by kind only (duplicate id, no nodes, shared fingerprint,
  missing parent), as `Ops.BuildNodeTables` states them; the ids they carry
  are not lifted to the rows.

## Findings

| source | as written | input that shows it | evidently intended | confidence | as-written member | corrected member |
|---|---|---|---|---|---|---|
| src/ops.rs:223-231 | The duplicate plan-fingerprint check looks the key up in `nodes_map`. That map stays empty until the plan-entry loop has finished, so the check never fires. A repeated entry then overwrites the earlier one in `raw_parents` (src/ops.rs:243). | A rule whose plan tree lists `{fingerprint: "j", parents: ["p"]}` and then `{fingerprint: "j", parents: []}`, where `j` is a node fingerprint. It is accepted, and the parent `p` is silently dropped. | A fingerprint repeated within one plan tree is rejected with the "duplicate fingerprint" error, as the message says. | not executed | OpsRules.CollectRawParentsAsWritten, OpsRules.RepeatedPlanEntryAccepted, OpsRules.RepeatedPlanEntryRuleAccepted | OpsRules.CollectRawParents |
