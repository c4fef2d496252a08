/**
 * The name-to-operators mapping of the second schema generation
 * (src/spec/ops.rs): each group names a DAG node and lists the explicit
 * operator addresses that node owns. Validation checks the names against the
 * DAG and collects one address set per name.
 */
module SpecOps {
  import opened Wrappers
  import opened Address
  import opened Dag

  /** `OperatorRefSpec`: only explicit addresses exist. */
  datatype OperatorRef = Explicit(addr: seq<u32>)

  datatype NameGroupSpec = NameGroupSpec(name: string, operators: seq<OperatorRef>)

  datatype OpsSpec = OpsSpec(groups: seq<NameGroupSpec>)

  datatype OpsError = UnknownName(name: string)

  /** The addresses one group lists. */
  function GroupAddrs(ops: seq<OperatorRef>): set<Addr> {
    set i | 0 <= i < |ops| :: New(ops[i].addr)
  }

  /** The names of the first `n` groups. */
  ghost function GroupNames(groups: seq<NameGroupSpec>, n: nat): set<string>
    requires n <= |groups|
  {
    set k | 0 <= k < n :: groups[k].name
  }

  /** Some group among the first `n`, named `name`, lists `a`. */
  ghost predicate Listed(groups: seq<NameGroupSpec>, n: nat, name: string, a: Addr)
    requires n <= |groups|
  {
    exists k :: 0 <= k < n && groups[k].name == name && a in GroupAddrs(groups[k].operators)
  }

  lemma ListedStep(groups: seq<NameGroupSpec>, i: nat, name: string, a: Addr)
    requires i < |groups|
    ensures Listed(groups, i + 1, name, a) <==>
      Listed(groups, i, name, a) || (groups[i].name == name && a in GroupAddrs(groups[i].operators))
  {
  }

  /**
   * `OpsSpec::validate_and_build`: every group name must be a DAG node (the
   * first one that is not is reported); the result has one entry per group
   * name, holding the union of the addresses of all groups with that name.
   */
  method ValidateAndBuild(spec: OpsSpec, dag: NameDag) returns (r: Result<map<string, set<Addr>>, OpsError>)
    ensures r.Ok? <==> forall k :: 0 <= k < |spec.groups| ==> spec.groups[k].name in dag.nodes
    ensures r.Err? ==> (exists k :: 0 <= k < |spec.groups| && spec.groups[k].name !in dag.nodes
                                && (forall j :: 0 <= j < k ==> spec.groups[j].name in dag.nodes)
                                && r.error == UnknownName(spec.groups[k].name))
    ensures r.Ok? ==> r.value.Keys == GroupNames(spec.groups, |spec.groups|) && r.value.Keys <= dag.nodes.Keys
    ensures r.Ok? ==> forall name, a :: name in r.value ==>
      (a in r.value[name] <==> Listed(spec.groups, |spec.groups|, name, a))
  {
    var groups := spec.groups;
    var m: map<string, set<Addr>> := map[];
    for i := 0 to |groups|
      invariant forall k :: 0 <= k < i ==> groups[k].name in dag.nodes
      invariant m.Keys == GroupNames(groups, i)
      invariant forall name, a :: name in m ==> (a in m[name] <==> Listed(groups, i, name, a))
    {
      var g := groups[i];
      if g.name !in dag.nodes {
        return Err(UnknownName(g.name));
      }
      var entry := if g.name in m then m[g.name] else {};
      ghost var before := entry;
      for j := 0 to |g.operators|
        invariant entry == before + set k | 0 <= k < j :: New(g.operators[k].addr)
      {
        entry := entry + {New(g.operators[j].addr)};
      }
      assert entry == before + GroupAddrs(g.operators);
      m := m[g.name := entry];
      forall name, a | name in m ensures a in m[name] <==> Listed(groups, i + 1, name, a) {
        ListedStep(groups, i, name, a);
      }
    }
    return Ok(m);
  }
}
