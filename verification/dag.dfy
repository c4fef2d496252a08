/**
 * The name DAG of the second schema generation (src/spec/dag.rs): unique
 * named nodes, `[src, dst]` edges, declared or inferred roots, and a
 * three-colour depth-first search that rejects any cycle reachable from a
 * root and reports the path that closed it.
 */
module Dag {
  import opened Wrappers
  import opened Order

  datatype NameNodeSpec = NameNodeSpec(name: string, nodeLabel: Option<string>)

  /** An edge `[src, dst]`. */
  datatype Edge = Edge(src: string, dst: string)

  datatype DagSpec = DagSpec(nodes: seq<NameNodeSpec>, edges: seq<Edge>, roots: seq<string>)

  datatype NameNode = NameNode(name: string, nodeLabel: string)

  datatype NameDag = NameDag(
    nodes: map<string, NameNode>,
    children: map<string, seq<string>>,
    parents: map<string, seq<string>>,
    roots: seq<string>)

  datatype DagError =
    | DuplicateName(name: string)
    | NoNodes
    | UnknownSrc(src: string)
    | UnknownDst(dst: string)
    | UnknownRoot(root: string)
    | NoRoots
    | Cycle(root: string, path: seq<string>)  // the walk from `root` that re-entered a node

  // ---------------------------------------------------------------------------
  // 1) Unique nodes
  // ---------------------------------------------------------------------------

  /** The validated node: the label defaults to the name. */
  function MakeNode(n: NameNodeSpec): (node: NameNode)
    ensures node.name == n.name
    ensures node.nodeLabel == (if n.nodeLabel.Some? then n.nodeLabel.value else n.name)
  {
    NameNode(n.name, if n.nodeLabel.Some? then n.nodeLabel.value else n.name)
  }

  ghost predicate NamesDistinctUpTo(specs: seq<NameNodeSpec>, n: nat) {
    forall j, k :: 0 <= j < k < n && k < |specs| ==> specs[j].name != specs[k].name
  }

  /** The node loop: a second node with a name already seen is an error. */
  method CollectNodes(specs: seq<NameNodeSpec>) returns (r: Result<map<string, NameNode>, DagError>)
    ensures r.Ok? <==> NamesDistinctUpTo(specs, |specs|)
    ensures r.Ok? ==> forall k :: 0 <= k < |specs| ==>
      specs[k].name in r.value && r.value[specs[k].name] == MakeNode(specs[k])
    ensures r.Ok? ==> forall n :: n in r.value ==> exists k :: 0 <= k < |specs| && specs[k].name == n
    ensures r.Err? ==> (exists j, k :: 0 <= j < k < |specs| && specs[j].name == specs[k].name
                                   && r.error == DuplicateName(specs[k].name))
  {
    var nodes: map<string, NameNode> := map[];
    for i := 0 to |specs|
      invariant NamesDistinctUpTo(specs, i)
      invariant forall k :: 0 <= k < i ==> specs[k].name in nodes && nodes[specs[k].name] == MakeNode(specs[k])
      invariant forall n :: n in nodes ==> exists k :: 0 <= k < i && specs[k].name == n
    {
      var n := specs[i];
      if n.name in nodes {
        return Err(DuplicateName(n.name));
      }
      var nodeLabel := if n.nodeLabel.Some? then n.nodeLabel.value else n.name;
      nodes := nodes[n.name := NameNode(n.name, nodeLabel)];
    }
    return Ok(nodes);
  }

  // ---------------------------------------------------------------------------
  // 2) Adjacency
  // ---------------------------------------------------------------------------

  /** `map.get(v)` on an adjacency map, absent meaning no neighbours. */
  function ChildrenOf(adj: map<string, seq<string>>, v: string): seq<string> {
    if v in adj then adj[v] else []
  }

  /** `entry(k).or_default().push(x)`. */
  function Push(adj: map<string, seq<string>>, k: string, x: string): map<string, seq<string>> {
    adj[k := ChildrenOf(adj, k) + [x]]
  }

  /** `children` after the given edges: each edge appends its `dst` to its `src`'s list. */
  function ChildLists(edges: seq<Edge>): map<string, seq<string>>
    decreases |edges|
  {
    if edges == [] then map[]
    else
      var e := edges[|edges| - 1];
      Push(ChildLists(edges[..|edges| - 1]), e.src, e.dst)
  }

  /** `parents` after the given edges: each edge appends its `src` to its `dst`'s list. */
  function ParentLists(edges: seq<Edge>): map<string, seq<string>>
    decreases |edges|
  {
    if edges == [] then map[]
    else
      var e := edges[|edges| - 1];
      Push(ParentLists(edges[..|edges| - 1]), e.dst, e.src)
  }

  /** How many times the edge `[s, d]` is listed. */
  function EdgeCount(edges: seq<Edge>, s: string, d: string): nat
    decreases |edges|
  {
    if edges == [] then 0
    else EdgeCount(edges[..|edges| - 1], s, d) + (if edges[|edges| - 1] == Edge(s, d) then 1 else 0)
  }

  /** One list entry per edge, on both sides: `children` and `parents` are inverse multirelations. */
  lemma {:induction false} OneEntryPerEdge(edges: seq<Edge>, s: string, d: string)
    ensures multiset(ChildrenOf(ChildLists(edges), s))[d] == EdgeCount(edges, s, d)
    ensures multiset(ChildrenOf(ParentLists(edges), d))[s] == EdgeCount(edges, s, d)
    decreases |edges|
  {
    if edges != [] {
      OneEntryPerEdge(edges[..|edges| - 1], s, d);
    }
  }

  lemma {:induction false} EdgeCountPositive(edges: seq<Edge>, s: string, d: string)
    ensures EdgeCount(edges, s, d) > 0 <==> Edge(s, d) in edges
    decreases |edges|
  {
    if edges != [] {
      var pre := edges[..|edges| - 1];
      EdgeCountPositive(pre, s, d);
      assert edges == pre + [edges[|edges| - 1]];
    }
  }

  /** `dst` is a child of `src` exactly when `src` is a parent of `dst`, exactly when the edge is listed. */
  lemma ChildrenParentsInverse(edges: seq<Edge>, s: string, d: string)
    ensures d in ChildrenOf(ChildLists(edges), s) <==> Edge(s, d) in edges
    ensures s in ChildrenOf(ParentLists(edges), d) <==> Edge(s, d) in edges
  {
    OneEntryPerEdge(edges, s, d);
    EdgeCountPositive(edges, s, d);
  }

  /** A name has a `parents` entry exactly when some edge ends at it, and that entry is never empty. */
  lemma {:induction false} ParentKeys(edges: seq<Edge>, n: string)
    ensures n in ParentLists(edges) <==> exists i :: 0 <= i < |edges| && edges[i].dst == n
    ensures n in ParentLists(edges) ==> ParentLists(edges)[n] != []
    decreases |edges|
  {
    if edges != [] {
      var pre := edges[..|edges| - 1];
      ParentKeys(pre, n);
      if exists i :: 0 <= i < |pre| && pre[i].dst == n {
        var i :| 0 <= i < |pre| && pre[i].dst == n;
        assert edges[i].dst == n;
      }
    }
  }

  predicate EdgeKnown(nodes: map<string, NameNode>, e: Edge) {
    e.src in nodes && e.dst in nodes
  }

  /** The error an edge with an unknown endpoint raises: the source is checked first. */
  function EdgeError(nodes: map<string, NameNode>, e: Edge): DagError {
    if e.src !in nodes then UnknownSrc(e.src) else UnknownDst(e.dst)
  }

  datatype Adjacency = Adjacency(children: map<string, seq<string>>, parents: map<string, seq<string>>)

  /** The edge loop: endpoints must be nodes; each edge is pushed onto both maps. */
  method BuildAdjacency(nodes: map<string, NameNode>, edges: seq<Edge>) returns (r: Result<Adjacency, DagError>)
    ensures r.Ok? <==> forall i :: 0 <= i < |edges| ==> EdgeKnown(nodes, edges[i])
    ensures r.Ok? ==> r.value == Adjacency(ChildLists(edges), ParentLists(edges))
    ensures r.Err? ==> (exists i :: 0 <= i < |edges| && !EdgeKnown(nodes, edges[i])
                                && (forall j :: 0 <= j < i ==> EdgeKnown(nodes, edges[j]))
                                && r.error == EdgeError(nodes, edges[i]))
  {
    var children: map<string, seq<string>> := map[];
    var parents: map<string, seq<string>> := map[];
    for i := 0 to |edges|
      invariant children == ChildLists(edges[..i]) && parents == ParentLists(edges[..i])
      invariant forall j :: 0 <= j < i ==> EdgeKnown(nodes, edges[j])
    {
      assert edges[..i + 1][..i] == edges[..i];
      var e := edges[i];
      if e.src !in nodes {
        return Err(UnknownSrc(e.src));
      }
      if e.dst !in nodes {
        return Err(UnknownDst(e.dst));
      }
      assert edges[..i + 1][i] == e;
      children := Push(children, e.src, e.dst);
      parents := Push(parents, e.dst, e.src);
    }
    assert edges[..|edges|] == edges;
    return Ok(Adjacency(children, parents));
  }

  // ---------------------------------------------------------------------------
  // 3) Roots
  // ---------------------------------------------------------------------------

  /** `parents.get(n).map(|p| p.is_empty()).unwrap_or(true)`. */
  predicate HasNoParents(parents: map<string, seq<string>>, n: string) {
    n !in parents || parents[n] == []
  }

  ghost function InferredRootSet(nodes: map<string, NameNode>, parents: map<string, seq<string>>): set<string> {
    set n | n in nodes && HasNoParents(parents, n)
  }

  /**
   * Declared roots must all be nodes and are kept as declared; with none
   * declared, the roots are the parentless nodes in name order. No root at
   * all is an error.
   */
  method ResolveRoots(declared: seq<string>, nodes: map<string, NameNode>, parents: map<string, seq<string>>)
    returns (r: Result<seq<string>, DagError>)
    ensures declared != [] ==> (r.Ok? <==> forall k :: 0 <= k < |declared| ==> declared[k] in nodes)
    ensures declared != [] && r.Ok? ==> r.value == declared
    ensures declared != [] && r.Err? ==>
      (exists k :: 0 <= k < |declared| && declared[k] !in nodes
                && (forall j :: 0 <= j < k ==> declared[j] in nodes) && r.error == UnknownRoot(declared[k]))
    ensures declared == [] ==> (r.Ok? <==> InferredRootSet(nodes, parents) != {})
    ensures declared == [] && r.Ok? ==>
      StrictlySorted(r.value, StrLess) && Elems(r.value) == InferredRootSet(nodes, parents)
    ensures declared == [] && r.Err? ==> r.error == NoRoots
  {
    var roots: seq<string>;
    if declared != [] {
      for k := 0 to |declared|
        invariant forall j :: 0 <= j < k ==> declared[j] in nodes
      {
        if declared[k] !in nodes {
          return Err(UnknownRoot(declared[k]));
        }
      }
      roots := declared;
    } else {
      StrLessTotal(nodes.Keys);
      var keys := SortedElements(nodes.Keys, StrLess);
      var parentless := n => HasNoParents(parents, n);
      roots := Filter(keys, parentless);
      FilterStrictlySorted(keys, parentless, StrLess);
      forall n | n in InferredRootSet(nodes, parents) ensures n in roots {
        assert n in Elems(keys);
        var i :| 0 <= i < |keys| && keys[i] == n;
        assert parentless(keys[i]);
      }
      assert Elems(roots) == InferredRootSet(nodes, parents);
    }
    if roots == [] {
      return Err(NoRoots);
    }
    NonEmptyElem(roots);
    return Ok(roots);
  }

  // ---------------------------------------------------------------------------
  // 4) Cycle detection
  // ---------------------------------------------------------------------------

  datatype Mark = Temp | Perm

  /** Consecutive names are linked by `children`. */
  ghost predicate IsWalk(children: map<string, seq<string>>, w: seq<string>) {
    forall i :: 0 <= i < |w| - 1 ==> w[i + 1] in ChildrenOf(children, w[i])
  }

  /** Some name occurs twice. */
  ghost predicate Repeats(w: seq<string>) {
    exists i, j :: 0 <= i < j < |w| && w[i] == w[j]
  }

  /** The last name already occurs earlier: the shape of a reported cycle. */
  ghost predicate EndsOnRepeat(w: seq<string>) {
    |w| > 0 && w[|w| - 1] in w[..|w| - 1]
  }

  /** No walk starting at a root visits any name twice: no cycle is reachable from a root. */
  ghost predicate AcyclicFrom(children: map<string, seq<string>>, roots: set<string>) {
    forall w :: IsWalk(children, w) && |w| > 0 && w[0] in roots ==> !Repeats(w)
  }

  /** Every name `dfs` can reach. */
  ghost predicate Closed(children: map<string, seq<string>>, U: set<string>) {
    forall p, c :: p in children && c in children[p] ==> c in U
  }

  /**
   * Finished (`Perm`) names carry a finishing rank, and each child of a
   * finished name is finished with a smaller rank.
   */
  ghost predicate RankedClosed(children: map<string, seq<string>>, rank: map<string, nat>) {
    forall p, c :: p in rank && c in ChildrenOf(children, p) ==> c in rank && rank[c] < rank[p]
  }

  /**
   * The search state between calls: `Temp` names are exactly the names on the
   * stack, `Perm` names are the ranked ones, and ranks are below the clock.
   */
  ghost predicate DfsState(children: map<string, seq<string>>, U: set<string>, marks: map<string, Mark>,
                           stack: seq<string>, rank: map<string, nat>, clock: nat) {
    && marks.Keys <= U
    && (forall n :: n in marks && marks[n] == Temp ==> n in stack)
    && (forall i :: 0 <= i < |stack| ==> stack[i] in marks && marks[stack[i]] == Temp)
    && (forall n :: n in rank <==> n in marks && marks[n] == Perm)
    && (forall p :: p in rank ==> rank[p] < clock)
    && RankedClosed(children, rank)
  }

  /** Marks are only added, and a finished name keeps its rank. */
  ghost predicate Extends(marks0: map<string, Mark>, rank0: map<string, nat>, marks: map<string, Mark>, rank: map<string, nat>) {
    && marks0.Keys <= marks.Keys
    && (forall n :: n in rank0 ==> n in rank && rank[n] == rank0[n])
  }

  lemma WalkExtend(children: map<string, seq<string>>, w: seq<string>, x: string)
    requires IsWalk(children, w) && |w| > 0 && x in ChildrenOf(children, w[|w| - 1])
    ensures IsWalk(children, w + [x])
  {
  }

  lemma MarkingShrinks(U: set<string>, before: set<string>, after: set<string>, v: string)
    requires v in U && v !in before && before + {v} <= after
    ensures |U - after| < |U - before|
  {
    var rest := (U - before) - {v};
    assert U - after <= rest;
    SubsetCard(U - after, rest);
    assert U - before == rest + {v};
  }

  lemma ExtendsTransitive(m0: map<string, Mark>, r0: map<string, nat>, m1: map<string, Mark>, r1: map<string, nat>,
                          m2: map<string, Mark>, r2: map<string, nat>)
    requires Extends(m0, r0, m1, r1) && Extends(m1, r1, m2, r2)
    ensures Extends(m0, r0, m2, r2)
  {
  }

  lemma RanksKept(xs: seq<string>, n: nat, rank0: map<string, nat>, rank: map<string, nat>,
                  marks0: map<string, Mark>, marks: map<string, Mark>)
    requires n < |xs| && Extends(marks0, rank0, marks, rank)
    requires forall j :: 0 <= j < n ==> xs[j] in rank0
    requires xs[n] in rank
    ensures forall j :: 0 <= j <= n ==> xs[j] in rank
  {
  }

  /** Entering an unmarked name: mark it `Temp` and push it. */
  lemma EnterKeepsState(children: map<string, seq<string>>, U: set<string>, marks: map<string, Mark>,
                        stack: seq<string>, rank: map<string, nat>, clock: nat, v: string)
    requires DfsState(children, U, marks, stack, rank, clock) && v in U && v !in marks
    ensures DfsState(children, U, marks[v := Temp], stack + [v], rank, clock)
    ensures Extends(marks, rank, marks[v := Temp], rank)
  {
    var stack' := stack + [v];
    forall i | 0 <= i < |stack'| ensures stack'[i] in marks[v := Temp] && marks[v := Temp][stack'[i]] == Temp {
      if i < |stack| {
        assert stack'[i] == stack[i];
      }
    }
  }

  /** Leaving a name whose children are all finished: pop it and mark it `Perm` with the next rank. */
  lemma FinishKeepsState(children: map<string, seq<string>>, U: set<string>, marks: map<string, Mark>,
                         stack0: seq<string>, rank: map<string, nat>, clock: nat, v: string)
    requires DfsState(children, U, marks, stack0 + [v], rank, clock)
    requires v !in stack0
    requires forall c :: c in ChildrenOf(children, v) ==> c in rank
    ensures DfsState(children, U, marks[v := Perm], stack0, rank[v := clock], clock + 1)
    ensures Extends(marks, rank, marks[v := Perm], rank[v := clock])
  {
    var stack := stack0 + [v];
    assert v in marks && marks[v] == Temp by {
      assert stack[|stack0|] == v;
    }
    forall i | 0 <= i < |stack0| ensures stack0[i] in marks && marks[stack0[i]] == Temp {
      assert stack[i] == stack0[i];
    }
    forall n | n in marks && marks[n] == Temp && n != v ensures n in stack0 {
      assert n in stack;
    }
  }

  /**
   * The recursive `dfs`. A finished name returns at once; a name still on the
   * stack closes a cycle and the stack plus that name is reported; otherwise
   * the name is marked `Temp`, pushed, its children are searched, and it is
   * popped and marked `Perm`.
   */
  method Dfs(v: string, children: map<string, seq<string>>, marks0: map<string, Mark>, stack0: seq<string>,
             ghost U: set<string>, ghost rank0: map<string, nat>, ghost clock0: nat)
    returns (marks: map<string, Mark>, stack: seq<string>, r: Result<(), seq<string>>,
             ghost rank: map<string, nat>, ghost clock: nat)
    requires Closed(children, U) && v in U
    requires DfsState(children, U, marks0, stack0, rank0, clock0)
    requires IsWalk(children, stack0 + [v])
    ensures v in marks0 && marks0[v] == Perm ==> r.Ok? && marks == marks0
    ensures r.Ok? ==> stack == stack0 && v in rank
    ensures r.Ok? ==> DfsState(children, U, marks, stack, rank, clock) && Extends(marks0, rank0, marks, rank)
    ensures r.Err? ==> |stack0| < |r.error| && r.error[..|stack0| + 1] == stack0 + [v]
    ensures r.Err? ==> IsWalk(children, r.error) && EndsOnRepeat(r.error)
    decreases |U - marks0.Keys|, 0
  {
    if v in marks0 && marks0[v] == Perm {
      return marks0, stack0, Ok(()), rank0, clock0;
    }
    if v in marks0 && marks0[v] == Temp {
      stack := stack0 + [v];
      assert stack[..|stack| - 1] == stack0;
      return marks0, stack, Err(stack), rank0, clock0;
    }
    assert v !in stack0;
    EnterKeepsState(children, U, marks0, stack0, rank0, clock0, v);
    MarkingShrinks(U, marks0.Keys, marks0[v := Temp].Keys, v);
    var res;
    ghost var marks1, rank1 := marks0[v := Temp], rank0;
    marks, stack, res, rank, clock :=
      SearchChildren(children, marks0[v := Temp], stack0 + [v], U, rank0, clock0);
    if res.Err? {
      return marks, stack, res, rank, clock;
    }
    ExtendsTransitive(marks0, rank0, marks1, rank1, marks, rank);
    FinishKeepsState(children, U, marks, stack0, rank, clock, v);
    ExtendsTransitive(marks0, rank0, marks, rank, marks[v := Perm], rank[v := clock]);
    assert stack[..|stack| - 1] == stack0;
    stack := stack[..|stack| - 1];
    marks := marks[v := Perm];
    rank := rank[v := clock];
    clock := clock + 1;
    return marks, stack, Ok(()), rank, clock;
  }

  /**
   * The loop of `dfs` over the children of the name on top of the stack, in
   * the order the edges listed them, stopping at the first reported cycle.
   */
  method SearchChildren(children: map<string, seq<string>>, marks0: map<string, Mark>, stack: seq<string>,
                        ghost U: set<string>, ghost rank0: map<string, nat>, ghost clock0: nat)
    returns (marks: map<string, Mark>, stack': seq<string>, r: Result<(), seq<string>>,
             ghost rank: map<string, nat>, ghost clock: nat)
    requires Closed(children, U) && |stack| > 0
    requires DfsState(children, U, marks0, stack, rank0, clock0)
    requires IsWalk(children, stack)
    ensures r.Ok? ==> stack' == stack
    ensures r.Ok? ==> forall c :: c in ChildrenOf(children, stack[|stack| - 1]) ==> c in rank
    ensures r.Ok? ==> DfsState(children, U, marks, stack', rank, clock) && Extends(marks0, rank0, marks, rank)
    ensures r.Err? ==> |stack| < |r.error| && r.error[..|stack|] == stack
    ensures r.Err? ==> IsWalk(children, r.error) && EndsOnRepeat(r.error)
    decreases |U - marks0.Keys|, 1
  {
    var kids := ChildrenOf(children, stack[|stack| - 1]);
    marks, stack', rank, clock := marks0, stack, rank0, clock0;
    for i := 0 to |kids|
      invariant stack' == stack
      invariant DfsState(children, U, marks, stack', rank, clock)
      invariant Extends(marks0, rank0, marks, rank)
      invariant forall j :: 0 <= j < i ==> kids[j] in rank
    {
      assert kids[i] in U;
      SubsetCard(U - marks.Keys, U - marks0.Keys);
      WalkExtend(children, stack, kids[i]);
      var res;
      ghost var marks1, rank1 := marks, rank;
      marks, stack', res, rank, clock := Dfs(kids[i], children, marks, stack, U, rank, clock);
      if res.Err? {
        ghost var w := res.error;
        assert w[..|stack|] == w[..|stack| + 1][..|stack|];
        return marks, stack', res, rank, clock;
      }
      ExtendsTransitive(marks0, rank0, marks1, rank1, marks, rank);
      RanksKept(kids, i, rank1, rank, marks1, marks);
    }
    forall c | c in kids ensures c in rank {
      var j :| 0 <= j < |kids| && kids[j] == c;
    }
    return marks, stack', Ok(()), rank, clock;
  }

  /** Along a walk from a finished name, every name is finished and ranks strictly fall. */
  lemma {:induction false} RanksFallAlongWalk(children: map<string, seq<string>>, rank: map<string, nat>, w: seq<string>, j: nat)
    requires RankedClosed(children, rank)
    requires IsWalk(children, w) && j < |w| && w[0] in rank
    ensures w[j] in rank
    ensures forall i :: 0 <= i < j ==> w[i] in rank && rank[w[j]] < rank[w[i]]
    decreases j
  {
    if j > 0 {
      RanksFallAlongWalk(children, rank, w, j - 1);
      assert w[j] in ChildrenOf(children, w[j - 1]);
    }
  }

  /** Once every root is finished, no cycle is reachable from a root. */
  lemma FinishedRootsAcyclic(children: map<string, seq<string>>, rank: map<string, nat>, roots: set<string>)
    requires RankedClosed(children, rank) && roots <= rank.Keys
    ensures AcyclicFrom(children, roots)
  {
    forall w | IsWalk(children, w) && |w| > 0 && w[0] in roots ensures !Repeats(w) {
      forall i, j | 0 <= i < j < |w| ensures w[i] != w[j] {
        RanksFallAlongWalk(children, rank, w, j);
      }
    }
  }

  /** A reported cycle path starting at a root witnesses a reachable cycle. */
  lemma ReportedCycleReachable(children: map<string, seq<string>>, path: seq<string>, roots: set<string>)
    requires IsWalk(children, path) && EndsOnRepeat(path) && path[0] in roots
    ensures !AcyclicFrom(children, roots)
  {
    var i :| 0 <= i < |path| - 1 && path[..|path| - 1][i] == path[|path| - 1];
    assert path[i] == path[|path| - 1];
    assert Repeats(path);
  }

  /** A cycle reported from the search of `roots[i]` starts at that root and refutes acyclicity. */
  lemma CycleFromRoot(children: map<string, seq<string>>, roots: seq<string>, i: nat, path: seq<string>)
    requires i < |roots| && 0 < |path| && path[..1] == [] + [roots[i]]
    requires IsWalk(children, path) && EndsOnRepeat(path)
    ensures path[0] == roots[i]
    ensures !AcyclicFrom(children, Elems(roots))
  {
    assert path[0] == path[..1][0];
    ReportedCycleReachable(children, path, Elems(roots));
  }

  lemma RootsFinished(roots: seq<string>, rank: map<string, nat>)
    requires forall j :: 0 <= j < |roots| ==> roots[j] in rank
    ensures Elems(roots) <= rank.Keys
  {
  }

  /** Every name the search can touch: the roots and every name mentioned by `children`. */
  ghost function Universe(children: map<string, seq<string>>, roots: seq<string>): set<string> {
    children.Keys + (set p, c | p in children && c in children[p] :: c) + Elems(roots)
  }

  lemma UniverseClosed(children: map<string, seq<string>>, roots: seq<string>)
    ensures Closed(children, Universe(children, roots))
    ensures forall i :: 0 <= i < |roots| ==> roots[i] in Universe(children, roots)
  {
  }

  /**
   * The driver: a fresh stack for each root, the marks shared between roots.
   * It succeeds exactly when no cycle is reachable from a root; a failure
   * names the root and a walk from it that ends on a name it already visited.
   */
  method CheckAcyclic(roots: seq<string>, children: map<string, seq<string>>) returns (r: Result<(), DagError>)
    ensures r.Ok? <==> AcyclicFrom(children, Elems(roots))
    ensures r.Err? ==> r.error.Cycle? && r.error.root in roots && |r.error.path| > 0
    ensures r.Err? ==> r.error.Cycle? && |r.error.path| > 0 && r.error.path[0] == r.error.root
    ensures r.Err? ==> r.error.Cycle? && IsWalk(children, r.error.path) && EndsOnRepeat(r.error.path)
  {
    ghost var U := Universe(children, roots);
    UniverseClosed(children, roots);
    var marks: map<string, Mark> := map[];
    var stack: seq<string> := [];
    ghost var rank: map<string, nat> := map[];
    ghost var clock: nat := 0;
    for i := 0 to |roots|
      invariant DfsState(children, U, marks, stack, rank, clock)
      invariant stack == []
      invariant forall j :: 0 <= j < i ==> roots[j] in rank
    {
      var res;
      ghost var marks1, rank1 := marks, rank;
      marks, stack, res, rank, clock := Dfs(roots[i], children, marks, stack, U, rank, clock);
      if res.Err? {
        CycleFromRoot(children, roots, i, res.error);
        return Err(Cycle(roots[i], res.error));
      }
      RanksKept(roots, i, rank1, rank, marks1, marks);
    }
    RootsFinished(roots, rank);
    FinishedRootsAcyclic(children, rank, Elems(roots));
    return Ok(());
  }

  // ---------------------------------------------------------------------------
  // The whole validation
  // ---------------------------------------------------------------------------

  ghost function NodeNames(spec: DagSpec): set<string> {
    set k | 0 <= k < |spec.nodes| :: spec.nodes[k].name
  }

  /** The roots the validation ends up with, as a set. */
  ghost function RootSet(spec: DagSpec): set<string> {
    if spec.roots != [] then Elems(spec.roots)
    else set n | n in NodeNames(spec) && forall i :: 0 <= i < |spec.edges| ==> spec.edges[i].dst != n
  }

  /** Phase 1 passes: the names are distinct and there is at least one node. */
  ghost predicate NodesWellFormed(spec: DagSpec) {
    NamesDistinctUpTo(spec.nodes, |spec.nodes|) && spec.nodes != []
  }

  /** Both endpoints of edge `i` are nodes. */
  ghost predicate EdgeKnownAt(spec: DagSpec, i: nat)
    requires i < |spec.edges|
  {
    spec.edges[i].src in NodeNames(spec) && spec.edges[i].dst in NodeNames(spec)
  }

  /** Phase 2 passes: every edge endpoint is a node. */
  ghost predicate EdgesKnown(spec: DagSpec) {
    forall i :: 0 <= i < |spec.edges| ==> EdgeKnownAt(spec, i)
  }

  /** Edge `i` is the first one with an endpoint that is no node. */
  ghost predicate FirstUnknownEdge(spec: DagSpec, i: int) {
    0 <= i < |spec.edges| && !EdgeKnownAt(spec, i) && forall j :: 0 <= j < i ==> EdgeKnownAt(spec, j)
  }

  /** The error phase 2 raises for an edge: the source endpoint is checked first. */
  ghost function SpecEdgeError(spec: DagSpec, e: Edge): DagError {
    if e.src !in NodeNames(spec) then UnknownSrc(e.src) else UnknownDst(e.dst)
  }

  /** Every declared root is a node. */
  ghost predicate RootsKnown(spec: DagSpec) {
    forall k :: 0 <= k < |spec.roots| ==> spec.roots[k] in NodeNames(spec)
  }

  /** Declared root `k` is the first one that is no node. */
  ghost predicate FirstUnknownRoot(spec: DagSpec, k: int) {
    0 <= k < |spec.roots| && spec.roots[k] !in NodeNames(spec) && forall j :: 0 <= j < k ==> spec.roots[j] in NodeNames(spec)
  }

  /** Everything `validate_and_build` checks before the cycle search, in the order it checks it. */
  ghost predicate WellFormed(spec: DagSpec) {
    && NodesWellFormed(spec)
    && EdgesKnown(spec)
    && RootsKnown(spec)
    && RootSet(spec) != {}
  }

  /** Everything `validate_and_build` checks. */
  ghost predicate Valid(spec: DagSpec) {
    WellFormed(spec) && AcyclicFrom(ChildLists(spec.edges), RootSet(spec))
  }

  /** With no roots declared, the parentless nodes are those no edge points to. */
  lemma InferredRootsAreUnpointed(spec: DagSpec, nodes: map<string, NameNode>)
    requires spec.roots == [] && nodes.Keys == NodeNames(spec)
    ensures InferredRootSet(nodes, ParentLists(spec.edges)) == RootSet(spec)
  {
    forall n | n in nodes ensures HasNoParents(ParentLists(spec.edges), n) <==>
      forall i :: 0 <= i < |spec.edges| ==> spec.edges[i].dst != n
    {
      ParentKeys(spec.edges, n);
    }
  }

  /** The node loop's result is keyed by exactly the spec's names. */
  lemma CollectedKeys(spec: DagSpec, nodes: map<string, NameNode>)
    requires forall k :: 0 <= k < |spec.nodes| ==> spec.nodes[k].name in nodes
    requires forall n :: n in nodes ==> exists k :: 0 <= k < |spec.nodes| && spec.nodes[k].name == n
    ensures nodes.Keys == NodeNames(spec)
    ensures |nodes| == 0 <==> spec.nodes == []
  {
    if spec.nodes != [] {
      assert spec.nodes[0].name in nodes;
    }
  }

  /**
   * The error phases 1 to 3 report for a spec that is not well formed: the
   * first phase that fails decides it. A repeated name, then no nodes, then
   * the first edge with an unknown endpoint, then the first unknown declared
   * root or, with none declared, no parentless node.
   */
  ghost predicate ReportsGraphError(e: DagError, spec: DagSpec) {
    && (!NamesDistinctUpTo(spec.nodes, |spec.nodes|) ==>
          exists j, k :: 0 <= j < k < |spec.nodes| && spec.nodes[j].name == spec.nodes[k].name
                      && e == DuplicateName(spec.nodes[k].name))
    && (NamesDistinctUpTo(spec.nodes, |spec.nodes|) && spec.nodes == [] ==> e == NoNodes)
    && (NodesWellFormed(spec) && !EdgesKnown(spec) ==>
          exists i :: FirstUnknownEdge(spec, i) && e == SpecEdgeError(spec, spec.edges[i]))
    && (NodesWellFormed(spec) && EdgesKnown(spec) && spec.roots != [] ==>
          exists k :: FirstUnknownRoot(spec, k) && e == UnknownRoot(spec.roots[k]))
    && (NodesWellFormed(spec) && EdgesKnown(spec) && spec.roots == [] ==> e == NoRoots)
  }

  /** Phase 1: the node loop, then the check that there is at least one node. */
  method SpecNodes(spec: DagSpec) returns (r: Result<map<string, NameNode>, DagError>)
    ensures r.Ok? <==> NodesWellFormed(spec)
    ensures r.Ok? ==> r.value.Keys == NodeNames(spec)
    ensures r.Ok? ==> forall k :: 0 <= k < |spec.nodes| ==> r.value[spec.nodes[k].name] == MakeNode(spec.nodes[k])
    ensures r.Err? && !NamesDistinctUpTo(spec.nodes, |spec.nodes|) ==>
      exists j, k :: 0 <= j < k < |spec.nodes| && spec.nodes[j].name == spec.nodes[k].name
                  && r.error == DuplicateName(spec.nodes[k].name)
    ensures r.Err? && NamesDistinctUpTo(spec.nodes, |spec.nodes|) ==> r.error == NoNodes
  {
    r := CollectNodes(spec.nodes);
    if r.Err? {
      return;
    }
    CollectedKeys(spec, r.value);
    if |r.value| == 0 {
      return Err(NoNodes);
    }
  }

  /** Phase 2 over the spec's own names: every edge endpoint must be a node. */
  method SpecAdjacency(spec: DagSpec, nodes: map<string, NameNode>) returns (r: Result<Adjacency, DagError>)
    requires nodes.Keys == NodeNames(spec)
    ensures r.Ok? <==> EdgesKnown(spec)
    ensures r.Ok? ==> r.value == Adjacency(ChildLists(spec.edges), ParentLists(spec.edges))
    ensures r.Err? ==> exists i :: FirstUnknownEdge(spec, i) && r.error == SpecEdgeError(spec, spec.edges[i])
  {
    r := BuildAdjacency(nodes, spec.edges);
    assert forall i :: 0 <= i < |spec.edges| ==> (EdgeKnown(nodes, spec.edges[i]) <==> EdgeKnownAt(spec, i));
    assert forall e :: EdgeError(nodes, e) == SpecEdgeError(spec, e);
  }

  /** Phase 3 over the spec's own names: the resolved roots, never none. */
  method SpecRoots(spec: DagSpec, nodes: map<string, NameNode>, parents: map<string, seq<string>>)
    returns (r: Result<seq<string>, DagError>)
    requires nodes.Keys == NodeNames(spec) && parents == ParentLists(spec.edges)
    ensures r.Ok? <==> RootsKnown(spec) && RootSet(spec) != {}
    ensures r.Ok? ==> Elems(r.value) == RootSet(spec)
    ensures r.Ok? && spec.roots != [] ==> r.value == spec.roots
    ensures r.Ok? && spec.roots == [] ==> StrictlySorted(r.value, StrLess)
    ensures r.Err? && spec.roots != [] ==> exists k :: FirstUnknownRoot(spec, k) && r.error == UnknownRoot(spec.roots[k])
    ensures r.Err? && spec.roots == [] ==> r.error == NoRoots
  {
    if spec.roots == [] {
      InferredRootsAreUnpointed(spec, nodes);
    } else {
      NonEmptyElem(spec.roots);
    }
    r := ResolveRoots(spec.roots, nodes, parents);
  }

  /**
   * Phases 1 to 3 of `validate_and_build`: the nodes, the adjacency and the
   * roots. The first phase that fails decides the error: a repeated name or
   * no nodes, then the first edge with an unknown endpoint, then the first
   * unknown declared root or, with none declared, no parentless node.
   */
  method BuildGraph(spec: DagSpec) returns (r: Result<NameDag, DagError>)
    ensures r.Ok? <==> WellFormed(spec)
    ensures r.Ok? ==> r.value.nodes.Keys == NodeNames(spec)
    ensures r.Ok? ==> forall k :: 0 <= k < |spec.nodes| ==> r.value.nodes[spec.nodes[k].name] == MakeNode(spec.nodes[k])
    ensures r.Ok? ==> r.value.children == ChildLists(spec.edges) && r.value.parents == ParentLists(spec.edges)
    ensures r.Ok? ==> Elems(r.value.roots) == RootSet(spec)
    ensures r.Ok? && spec.roots != [] ==> r.value.roots == spec.roots
    ensures r.Ok? && spec.roots == [] ==> StrictlySorted(r.value.roots, StrLess)
    ensures r.Err? ==> ReportsGraphError(r.error, spec)
    ensures r.Err? ==> !r.error.Cycle?
  {
    var nodesR := SpecNodes(spec);
    if nodesR.Err? {
      return Err(nodesR.error);
    }
    var adjR := SpecAdjacency(spec, nodesR.value);
    if adjR.Err? {
      return Err(adjR.error);
    }
    var rootsR := SpecRoots(spec, nodesR.value, adjR.value.parents);
    if rootsR.Err? {
      return Err(rootsR.error);
    }
    return Ok(NameDag(nodesR.value, adjR.value.children, adjR.value.parents, rootsR.value));
  }

  /**
   * `DagSpec::validate_and_build`: succeeds exactly on a valid spec, and then
   * holds the labelled nodes, one `children`/`parents` entry per edge, the
   * resolved roots, and no cycle reachable from them. A spec that is not well
   * formed fails with the error of its first failing phase; a well-formed one
   * can only fail with a cycle error, which names a root and a walk from it
   * that comes back to a name it already visited.
   */
  method ValidateAndBuild(spec: DagSpec) returns (r: Result<NameDag, DagError>)
    ensures r.Ok? <==> Valid(spec)
    ensures r.Ok? ==> r.value.nodes.Keys == NodeNames(spec)
    ensures r.Ok? ==> forall k :: 0 <= k < |spec.nodes| ==> r.value.nodes[spec.nodes[k].name] == MakeNode(spec.nodes[k])
    ensures r.Ok? ==> r.value.children == ChildLists(spec.edges) && r.value.parents == ParentLists(spec.edges)
    ensures r.Ok? ==> Elems(r.value.roots) == RootSet(spec)
    ensures r.Ok? && spec.roots != [] ==> r.value.roots == spec.roots
    ensures r.Ok? && spec.roots == [] ==> StrictlySorted(r.value.roots, StrLess)
    ensures r.Ok? ==> AcyclicFrom(r.value.children, Elems(r.value.roots))
    ensures r.Err? && !WellFormed(spec) ==> ReportsGraphError(r.error, spec)
    ensures r.Err? && WellFormed(spec) ==> r.error.Cycle?
    ensures r.Err? && r.error.Cycle? ==> WellFormed(spec) && r.error.root in RootSet(spec) && |r.error.path| > 0
    ensures r.Err? && r.error.Cycle? ==> |r.error.path| > 0 && r.error.path[0] == r.error.root
    ensures r.Err? && r.error.Cycle? ==> IsWalk(ChildLists(spec.edges), r.error.path) && EndsOnRepeat(r.error.path)
  {
    r := BuildGraph(spec);
    if r.Err? {
      return;
    }
    var g := r.value;
    var cyc := CheckAcyclic(g.roots, g.children);
    if cyc.Err? {
      return Err(cyc.error);
    }
  }
}
