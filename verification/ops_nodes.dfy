/**
 * The node phases of the first-generation topology validation (src/ops.rs,
 * `OpsSpec::validate_and_build`, phases 1 and 2): raw node rows are keyed by
 * id and normalised, fingerprints are indexed per block and globally, the
 * roots are collected and every parent id is checked.
 */
module OpsNodes {
  import opened Wrappers
  import opened Order
  import opened Text
  import opened Address

  /** A node row as `ops.json` holds it; absent fields take their defaults. */
  datatype RawNode = RawNode(
    id: u32,
    name: string,
    block: Option<string>,
    fingerprint: Option<string>,
    tags: seq<string>,
    operators: seq<Addr>,
    parents: seq<u32>)

  /** `NodeSpec`: the validated node. */
  datatype NodeSpec = NodeSpec(
    id: u32,
    nodeLabel: string,
    block: string,
    fingerprint: Option<string>,
    tags: seq<string>,
    parents: seq<u32>,
    operators: set<Addr>)

  /** The errors `validate_and_build` bails with, carrying what its messages name. */
  datatype OpsError =
    | DuplicateId(id: u32)
    | NoNodes
    | SharedFingerprint(fingerprint: string, block: string, first: u32, second: u32)
    | MissingParent(node: u32, parent: u32)
    | EmptyPlanFingerprint(rule: string)
    | DuplicatePlanFingerprint(rule: string, fingerprint: string)
    | UnknownPlanFingerprint(rule: string, fingerprint: string)
    | MissingPlanParent(rule: string, parentFingerprint: string)
    | SinkCount(rule: string, count: nat)
    | UnrecordedFingerprint(node: u32, fingerprint: string)

  function IdLess(a: u32, b: u32): bool { a < b }

  lemma IdLessTotal(dom: set<u32>)
    ensures StrictTotalOn(IdLess, dom)
  {
  }

  // ---------------------------------------------------------------------------
  // Phase 1: normalised nodes keyed by id
  // ---------------------------------------------------------------------------

  const DEFAULT_BLOCK: string := "other"

  function BlockOf(raw: RawNode): string {
    if raw.block.Some? then raw.block.value else DEFAULT_BLOCK
  }

  /** `fingerprint.as_deref().map(str::trim).filter(|s| !s.is_empty())`. */
  function NormalizeFingerprint(fp: Option<string>): Option<string> {
    if fp.Some? && !IsBlank(fp.value) then Some(Trim(fp.value)) else None
  }

  /**
   * A normalised fingerprint is absent exactly when the raw one is absent or
   * all whitespace; otherwise it is a non-empty piece of the raw text with
   * only whitespace cut from either end, and it neither starts nor ends with
   * whitespace.
   */
  lemma NormalizedFingerprint(fp: Option<string>)
    ensures NormalizeFingerprint(fp).None? <==>
      fp.None? || forall i :: 0 <= i < |fp.value| ==> IsWhitespace(fp.value[i])
    ensures NormalizeFingerprint(fp).Some? ==>
      var s, t := fp.value, NormalizeFingerprint(fp).value;
      && t != []
      && !IsWhitespace(t[0]) && !IsWhitespace(t[|t| - 1])
      && (exists i, j :: 0 <= i <= j <= |s| && t == s[i..j]
            && (forall k :: 0 <= k < i ==> IsWhitespace(s[k]))
            && (forall k :: j <= k < |s| ==> IsWhitespace(s[k])))
  {
    if fp.Some? {
      var s := fp.value;
      BlankIffAllWhitespace(s);
      if !IsBlank(s) {
        TrimEnds(s);
        var i, j := TrimSlice(s);
      }
    }
  }

  /** What phase 1 makes of one raw row. */
  ghost predicate NormalizedFrom(n: NodeSpec, raw: RawNode) {
    && n.id == raw.id
    && n.nodeLabel == raw.name
    && n.block == BlockOf(raw)
    && n.fingerprint == NormalizeFingerprint(raw.fingerprint)
    && n.tags == raw.tags
    && StrictlySorted(n.parents, IdLess) && Elems(n.parents) == Elems(raw.parents)
    && n.operators == Elems(raw.operators)
  }

  /**
   * `normalize_parents`: sort then dedup. The result is strictly ascending
   * with the same elements, which determines it (`Order.StrictlySortedUnique`).
   */
  method NormalizeParents<T(==)>(ps: seq<T>, lt: (T, T) -> bool) returns (r: seq<T>)
    requires StrictTotalOn(lt, Elems(ps))
    ensures StrictlySorted(r, lt)
    ensures Elems(r) == Elems(ps)
  {
    var sorted := Sort(ps, lt);
    r := Dedup(sorted, lt);
  }

  method NormalizeNode(raw: RawNode) returns (n: NodeSpec)
    ensures NormalizedFrom(n, raw)
  {
    IdLessTotal(Elems(raw.parents));
    var parents := NormalizeParents(raw.parents, IdLess);
    var block := if raw.block.Some? then raw.block.value else DEFAULT_BLOCK;
    var fingerprint := if raw.fingerprint.Some? && !IsBlank(raw.fingerprint.value)
      then Some(Trim(raw.fingerprint.value)) else None;
    n := NodeSpec(raw.id, raw.name, block, fingerprint, raw.tags, parents, Elems(raw.operators));
  }

  ghost predicate IdsDistinctUpTo(raws: seq<RawNode>, n: nat) {
    forall j, k :: 0 <= j < k < n && k < |raws| ==> raws[j].id != raws[k].id
  }

  /** The map after the first `i` rows: each of them normalised under its id, and nothing else. */
  ghost predicate KeyedUpTo(nodes: map<u32, NodeSpec>, raws: seq<RawNode>, i: nat)
    requires i <= |raws|
  {
    && (forall k :: 0 <= k < i ==> raws[k].id in nodes && NormalizedFrom(nodes[raws[k].id], raws[k]))
    && (forall id :: id in nodes ==> nodes[id].id == id && exists k :: 0 <= k < i && raws[k].id == id)
  }

  lemma KeyedStep(nodes: map<u32, NodeSpec>, raws: seq<RawNode>, i: nat, n: NodeSpec)
    requires i < |raws| && KeyedUpTo(nodes, raws, i) && IdsDistinctUpTo(raws, i)
    requires raws[i].id !in nodes && NormalizedFrom(n, raws[i])
    ensures KeyedUpTo(nodes[raws[i].id := n], raws, i + 1) && IdsDistinctUpTo(raws, i + 1)
  {
    var m := nodes[raws[i].id := n];
    forall k | 0 <= k < i + 1 ensures raws[k].id in m && NormalizedFrom(m[raws[k].id], raws[k]) {
      if k < i {
        assert raws[k].id in nodes;
        assert m[raws[k].id] == nodes[raws[k].id];
      }
    }
    forall id | id in m ensures m[id].id == id && exists k :: 0 <= k < i + 1 && raws[k].id == id {
      if id != raws[i].id {
        var k :| 0 <= k < i && raws[k].id == id;
      }
    }
    forall j, k | 0 <= j < k < i + 1 && k < |raws| ensures raws[j].id != raws[k].id {
      if k == i {
        assert raws[j].id in nodes;
      }
    }
  }

  /** The phase 1 loop: the rows keyed by id, each normalised; a repeated id is an error. */
  method KeyById(raws: seq<RawNode>) returns (r: Result<map<u32, NodeSpec>, OpsError>)
    ensures r.Ok? <==> IdsDistinctUpTo(raws, |raws|)
    ensures r.Ok? ==> KeyedUpTo(r.value, raws, |raws|)
    ensures r.Err? ==> (exists j, k :: 0 <= j < k < |raws| && raws[j].id == raws[k].id
                                   && r.error == DuplicateId(raws[k].id))
  {
    var nodes: map<u32, NodeSpec> := map[];
    for i := 0 to |raws|
      invariant IdsDistinctUpTo(raws, i)
      invariant KeyedUpTo(nodes, raws, i)
    {
      var raw := raws[i];
      if raw.id in nodes {
        return Err(DuplicateId(raw.id));
      }
      var node := NormalizeNode(raw);
      KeyedStep(nodes, raws, i, node);
      nodes := nodes[raw.id := node];
    }
    return Ok(nodes);
  }

  /**
   * Phase 1: the rows keyed by id, each normalised; a repeated id and an
   * empty node list are errors.
   */
  method BuildNodes(raws: seq<RawNode>) returns (r: Result<map<u32, NodeSpec>, OpsError>)
    ensures r.Ok? <==> IdsDistinctUpTo(raws, |raws|) && raws != []
    ensures r.Ok? ==> forall k :: 0 <= k < |raws| ==> raws[k].id in r.value && NormalizedFrom(r.value[raws[k].id], raws[k])
    ensures r.Ok? ==> forall id :: id in r.value ==> r.value[id].id == id && exists k :: 0 <= k < |raws| && raws[k].id == id
    ensures r.Err? && raws == [] ==> r.error == NoNodes
    ensures r.Err? && raws != [] ==> (exists j, k :: 0 <= j < k < |raws| && raws[j].id == raws[k].id
                                                && r.error == DuplicateId(raws[k].id))
  {
    r := KeyById(raws);
    if r.Ok? {
      assert raws != [] ==> raws[0].id in r.value;
      if |r.value| == 0 {
        return Err(NoNodes);
      }
    }
  }

  // ---------------------------------------------------------------------------
  // Phase 2a: fingerprint indexes
  // ---------------------------------------------------------------------------

  /** Node `id` carries fingerprint `fp`. */
  ghost predicate HasFingerprint(nodes: map<u32, NodeSpec>, id: u32, fp: string) {
    id in nodes && nodes[id].fingerprint == Some(fp)
  }

  /** No two nodes of the same block share a fingerprint. */
  ghost predicate FingerprintsUniquePerBlock(nodes: map<u32, NodeSpec>) {
    forall a, b, fp :: HasFingerprint(nodes, a, fp) && HasFingerprint(nodes, b, fp) && a != b ==>
      nodes[a].block != nodes[b].block
  }

  /** `fingerprint_to_node` maps each fingerprint in use to the smallest id carrying it. */
  ghost predicate IndexesSmallest(index: map<string, u32>, nodes: map<u32, NodeSpec>) {
    && (forall fp :: fp in index <==> exists id :: HasFingerprint(nodes, id, fp))
    && (forall fp :: fp in index ==> HasFingerprint(nodes, index[fp], fp))
    && (forall fp, id :: fp in index && HasFingerprint(nodes, id, fp) ==> index[fp] <= id)
  }

  /** The per-block map after the first `i` ids: no clash so far, and each key names the id that set it. */
  ghost predicate BlockState(byBlock: map<(string, string), u32>, ids: seq<u32>, F: seq<Option<string>>, B: seq<string>, i: nat)
    requires i <= |ids| == |F| == |B|
  {
    && (forall j, k :: 0 <= j < k < i && F[j].Some? && F[j] == F[k] ==> B[j] != B[k])
    && (forall key :: key in byBlock ==>
          exists j :: 0 <= j < i && byBlock[key] == ids[j] && F[j] == Some(key.1) && B[j] == key.0)
    && (forall j :: 0 <= j < i && F[j].Some? ==> (B[j], F[j].value) in byBlock)
  }

  /** The global map after the first `i` ids: the first id seen per fingerprint. */
  ghost predicate IndexState(index: map<string, u32>, ids: seq<u32>, F: seq<Option<string>>, i: nat)
    requires i <= |ids| == |F|
  {
    && (forall fp :: fp in index <==> exists j :: 0 <= j < i && F[j] == Some(fp))
    && (forall fp :: fp in index ==> exists j :: 0 <= j < i && index[fp] == ids[j] && F[j] == Some(fp))
    && (forall fp, j :: fp in index && 0 <= j < i && F[j] == Some(fp) ==> index[fp] <= ids[j])
  }

  /** An id whose `(block, fingerprint)` is new extends the per-block map. */
  lemma BlockStep(byBlock: map<(string, string), u32>, ids: seq<u32>, F: seq<Option<string>>, B: seq<string>, i: nat)
    requires i < |ids| == |F| == |B|
    requires BlockState(byBlock, ids, F, B, i)
    requires F[i].Some? ==> (B[i], F[i].value) !in byBlock
    ensures BlockState(if F[i].Some? then byBlock[(B[i], F[i].value) := ids[i]] else byBlock, ids, F, B, i + 1)
  {
    forall j, k | 0 <= j < k < i + 1 && F[j].Some? && F[j] == F[k] ensures B[j] != B[k] {
      if k == i {
        assert (B[j], F[j].value) in byBlock;
      }
    }
  }

  /** The global map keeps the first id per fingerprint, which in ascending order is the smallest. */
  lemma IndexStep(index: map<string, u32>, ids: seq<u32>, F: seq<Option<string>>, i: nat)
    requires i < |ids| == |F| && StrictlySorted(ids, IdLess)
    requires IndexState(index, ids, F, i)
    ensures IndexState(if F[i].Some? && F[i].value !in index then index[F[i].value := ids[i]] else index, ids, F, i + 1)
  {
    if F[i].Some? && F[i].value in index {
      var fp := F[i].value;
      var j :| 0 <= j < i && index[fp] == ids[j] && F[j] == Some(fp);
      assert IdLess(ids[j], ids[i]);
    }
  }

  /**
   * The phase 2a loop over the ascending ids, stated position by position:
   * `F[j]` and `B[j]` are the fingerprint and block of the `j`-th id.
   */
  method IndexLoop(ids: seq<u32>, nodes: map<u32, NodeSpec>, ghost F: seq<Option<string>>, ghost B: seq<string>)
    returns (r: Result<map<string, u32>, OpsError>)
    requires StrictlySorted(ids, IdLess) && Elems(ids) <= nodes.Keys
    requires |F| == |B| == |ids|
    requires forall j :: 0 <= j < |ids| ==> F[j] == nodes[ids[j]].fingerprint && B[j] == nodes[ids[j]].block
    ensures r.Ok? ==> forall j, k :: 0 <= j < k < |ids| && F[j].Some? && F[j] == F[k] ==> B[j] != B[k]
    ensures r.Ok? ==> IndexState(r.value, ids, F, |ids|)
    ensures r.Err? ==> r.error.SharedFingerprint? && r.error.first < r.error.second
    ensures r.Err? && r.error.SharedFingerprint? ==>
      (exists j, k :: 0 <= j < k < |ids| && r.error.first == ids[j] && r.error.second == ids[k]
                   && F[j] == F[k] == Some(r.error.fingerprint) && B[j] == B[k] == r.error.block)
  {
    var byBlock: map<(string, string), u32> := map[];
    var index: map<string, u32> := map[];
    for i := 0 to |ids|
      invariant BlockState(byBlock, ids, F, B, i)
      invariant IndexState(index, ids, F, i)
    {
      var id := ids[i];
      var node := nodes[id];
      assert ids[i] in Elems(ids);
      if node.fingerprint.Some? {
        var fp := node.fingerprint.value;
        var key := (node.block, fp);
        if key in byBlock {
          var prev := byBlock[key];
          ghost var j :| 0 <= j < i && prev == ids[j] && F[j] == Some(fp) && B[j] == key.0;
          assert IdLess(ids[j], ids[i]);
          return Err(SharedFingerprint(fp, key.0, prev, id));
        }
      }
      BlockStep(byBlock, ids, F, B, i);
      IndexStep(index, ids, F, i);
      if node.fingerprint.Some? {
        var fp := node.fingerprint.value;
        byBlock := byBlock[(node.block, fp) := id];
        if fp !in index {
          index := index[fp := id];
        }
      }
    }
    return Ok(index);
  }

  /**
   * Phase 2a: walking the nodes in ascending id order, a second node with the
   * same `(block, fingerprint)` is an error naming both ids, the smaller
   * first; the global index keeps the first (smallest) id per fingerprint.
   */
  method IndexFingerprints(nodes: map<u32, NodeSpec>) returns (r: Result<map<string, u32>, OpsError>)
    ensures r.Ok? <==> FingerprintsUniquePerBlock(nodes)
    ensures r.Ok? ==> IndexesSmallest(r.value, nodes)
    ensures r.Err? ==> r.error.SharedFingerprint? && r.error.first < r.error.second
    ensures r.Err? && r.error.SharedFingerprint? ==>
      HasFingerprint(nodes, r.error.first, r.error.fingerprint) && HasFingerprint(nodes, r.error.second, r.error.fingerprint)
    ensures r.Err? && r.error.SharedFingerprint? ==>
      r.error.first in nodes && r.error.second in nodes
      && nodes[r.error.first].block == r.error.block && nodes[r.error.second].block == r.error.block
  {
    IdLessTotal(nodes.Keys);
    var ids := SortedElements(nodes.Keys, IdLess);
    ghost var F := seq(|ids|, j requires 0 <= j < |ids| => nodes[ids[j]].fingerprint);
    ghost var B := seq(|ids|, j requires 0 <= j < |ids| => nodes[ids[j]].block);
    r := IndexLoop(ids, nodes, F, B);
    if r.Ok? {
      UniqueBridge(nodes, ids, F, B);
      IndexBridge(r.value, nodes, ids, F);
    } else {
      ghost var j, k :| 0 <= j < k < |ids| && r.error.first == ids[j] && r.error.second == ids[k]
                   && F[j] == F[k] == Some(r.error.fingerprint) && B[j] == B[k] == r.error.block;
      assert !FingerprintsUniquePerBlock(nodes) by {
        assert HasFingerprint(nodes, ids[j], r.error.fingerprint) && HasFingerprint(nodes, ids[k], r.error.fingerprint);
      }
    }
  }

  /** Over the full ascending listing, the pairwise condition is the per-block uniqueness. */
  lemma UniqueBridge(nodes: map<u32, NodeSpec>, ids: seq<u32>, F: seq<Option<string>>, B: seq<string>)
    requires StrictlySorted(ids, IdLess) && Elems(ids) == nodes.Keys
    requires |F| == |B| == |ids|
    requires forall j :: 0 <= j < |ids| ==> F[j] == nodes[ids[j]].fingerprint && B[j] == nodes[ids[j]].block
    requires forall j, k :: 0 <= j < k < |ids| && F[j].Some? && F[j] == F[k] ==> B[j] != B[k]
    ensures FingerprintsUniquePerBlock(nodes)
  {
    forall a, b, fp | HasFingerprint(nodes, a, fp) && HasFingerprint(nodes, b, fp) && a != b
      ensures nodes[a].block != nodes[b].block
    {
      var ja :| 0 <= ja < |ids| && ids[ja] == a;
      var jb :| 0 <= jb < |ids| && ids[jb] == b;
      if ja < jb {
        assert B[ja] != B[jb];
      } else {
        assert B[jb] != B[ja];
      }
    }
  }

  lemma IndexBridge(index: map<string, u32>, nodes: map<u32, NodeSpec>, ids: seq<u32>, F: seq<Option<string>>)
    requires Elems(ids) == nodes.Keys && |F| == |ids|
    requires forall j :: 0 <= j < |ids| ==> F[j] == nodes[ids[j]].fingerprint
    requires IndexState(index, ids, F, |ids|)
    ensures IndexesSmallest(index, nodes)
  {
    forall fp ensures fp in index <==> exists id :: HasFingerprint(nodes, id, fp) {
      if id :| HasFingerprint(nodes, id, fp) {
        var j :| 0 <= j < |ids| && ids[j] == id;
        assert F[j] == Some(fp);
      }
      if fp in index {
        var j :| 0 <= j < |ids| && F[j] == Some(fp);
        assert ids[j] in Elems(ids);
        assert HasFingerprint(nodes, ids[j], fp);
      }
    }
    forall fp | fp in index ensures HasFingerprint(nodes, index[fp], fp) {
      var j :| 0 <= j < |ids| && index[fp] == ids[j] && F[j] == Some(fp);
    }
    forall fp, id | fp in index && HasFingerprint(nodes, id, fp) ensures index[fp] <= id {
      var j :| 0 <= j < |ids| && ids[j] == id;
      assert F[j] == Some(fp);
    }
  }

  // ---------------------------------------------------------------------------
  // Phase 2b: roots
  // ---------------------------------------------------------------------------

  ghost function ParentlessIds(nodes: map<u32, NodeSpec>): set<u32> {
    set id | id in nodes && nodes[id].parents == []
  }

  /** Phase 2b: the ids without parents, ascending and without repeats. */
  method ComputeRoots(nodes: map<u32, NodeSpec>) returns (roots: seq<u32>)
    ensures StrictlySorted(roots, IdLess)
    ensures Elems(roots) == ParentlessIds(nodes)
  {
    IdLessTotal(nodes.Keys);
    var ids := SortedElements(nodes.Keys, IdLess);
    var acc: seq<u32> := [];
    for i := 0 to |ids|
      invariant forall x :: x in acc <==> x in ids[..i] && nodes[x].parents == []
    {
      assert ids[..i + 1] == ids[..i] + [ids[i]];
      if nodes[ids[i]].parents == [] {
        acc := acc + [ids[i]];
      }
    }
    assert ids[..|ids|] == ids;
    IdLessTotal(Elems(acc));
    var sorted := Sort(acc, IdLess);
    roots := Dedup(sorted, IdLess);
  }

  // ---------------------------------------------------------------------------
  // Phase 2c: parents exist
  // ---------------------------------------------------------------------------

  ghost predicate ParentsExist(nodes: map<u32, NodeSpec>) {
    forall id, p :: id in nodes && p in nodes[id].parents ==> p in nodes
  }

  /** Position `i` holds the first of `parents` that is not a key of `m`. */
  ghost predicate FirstMissingAt<K, V>(parents: seq<K>, m: map<K, V>, i: int) {
    0 <= i < |parents| && parents[i] !in m && forall q :: 0 <= q < i ==> parents[q] in m
  }

  /**
   * The first of `parents` that is not a key of `m`, if any: the inner loop of
   * both parent checks (node ids here, plan fingerprints in phase 3).
   */
  method FirstMissing<K, V>(parents: seq<K>, m: map<K, V>) returns (r: Option<K>)
    ensures r.None? <==> forall p :: p in parents ==> p in m
    ensures r.Some? ==> exists i :: FirstMissingAt(parents, m, i) && r.value == parents[i]
  {
    for k := 0 to |parents|
      invariant forall q :: 0 <= q < k ==> parents[q] in m
    {
      if parents[k] !in m {
        return Some(parents[k]);
      }
    }
    return None;
  }

  /**
   * Node `id` is the first in ascending id order with a parent that names no
   * node, and position `i` of its parent list holds the first such parent.
   */
  ghost predicate FirstMissingParent(nodes: map<u32, NodeSpec>, id: u32, i: int) {
    && id in nodes
    && FirstMissingAt(nodes[id].parents, nodes, i)
    && forall id', p :: id' in nodes && id' < id && p in nodes[id'].parents ==> p in nodes
  }

  /** Phase 2c: every parent id names a node; the first that does not, in id order, is reported with its child. */
  method CheckParents(nodes: map<u32, NodeSpec>) returns (r: Result<(), OpsError>)
    ensures r.Ok? <==> ParentsExist(nodes)
    ensures r.Err? ==> exists id, i :: FirstMissingParent(nodes, id, i)
                                    && r.error == MissingParent(nodes[id].id, nodes[id].parents[i])
  {
    IdLessTotal(nodes.Keys);
    var ids := SortedElements(nodes.Keys, IdLess);
    for i := 0 to |ids|
      invariant forall j, p :: 0 <= j < i && p in nodes[ids[j]].parents ==> p in nodes
    {
      assert ids[i] in Elems(ids);
      var node := nodes[ids[i]];
      var missing := FirstMissing(node.parents, nodes);
      if missing.Some? {
        forall id', p | id' in nodes && id' < ids[i] && p in nodes[id'].parents ensures p in nodes {
          BeforeInSorted(ids, IdLess, i, id');
        }
        return Err(MissingParent(node.id, missing.value));
      }
    }
    forall id, p | id in nodes && p in nodes[id].parents ensures p in nodes {
      var j :| 0 <= j < |ids| && ids[j] == id;
    }
    return Ok(());
  }
}
