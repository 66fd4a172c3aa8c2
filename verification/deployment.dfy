/** The deployment-matrix builder: resolve the requested group, keep its target stores,
    and pair each with its configuration for the CI pipeline's matrix. */
module Deployment {
  import opened Wrappers
  import opened Sequences
  import opened Stores

  /** The group used when no group argument (or an empty one) is given. */
  const DefaultGroup: string := "target-stores"

  /** Group name to the ordered store identifiers it deploys. */
  type GroupTable = map<string, seq<string>>

  /** One matrix entry: a store identifier with its full configuration. */
  datatype Entry = Entry(name: string, config: Descriptor)

  /** What the builder emits: the matrix and its `total_stores` count. */
  datatype Output = Output(stores: seq<Entry>, totalStores: nat)

  /** The two fatal outcomes; both end the process with exit code 1. */
  datatype Error = GroupNotFound | NoTargetStores

  /** The group to process: the argument, unless it is missing or the empty string
      (both falsy for `||`), in which case the default group. */
  function RequestedGroup(arg: Option<string>): (g: string)
    ensures g != ""
    ensures arg.Some? && arg.value != "" ==> g == arg.value
    ensures arg.None? ==> g == DefaultGroup
  {
    match arg
    case Some(a) => if a != "" then a else DefaultGroup
    case None => DefaultGroup
  }

  /** The names of a matrix, in order. */
  function Names(entries: seq<Entry>): seq<string> {
    seq(|entries|, i requires 0 <= i < |entries| => entries[i].name)
  }

  /** Pairs each registered name with its registry configuration. */
  function MatrixOf(registry: Registry, names: seq<string>): seq<Entry>
    requires forall i :: 0 <= i < |names| ==> names[i] in registry
  {
    seq(|names|, i requires 0 <= i < |names| => Entry(names[i], registry[names[i]]))
  }

  /** The whole builder, from decoded registry, group table and argument to the emitted output. */
  function Build(registry: Registry, groups: GroupTable, arg: Option<string>): (r: Result<Output, Error>)
    ensures var g := RequestedGroup(arg);
      && (r == Failure(GroupNotFound) <==> g !in groups)
      && (r == Failure(NoTargetStores) <==>
            g in groups && forall id :: id in groups[g] ==> !IsTarget(registry, id))
      && (r.Success? ==>
            && g in groups
            && |r.value.stores| > 0
            && r.value.totalStores == |r.value.stores|
            && forall i :: 0 <= i < |r.value.stores| ==>
                 var e := r.value.stores[i];
                 && e.name in groups[g]
                 && IsTarget(registry, e.name)
                 && e.config == registry[e.name])
  {
    var g := RequestedGroup(arg);
    if g !in groups then Failure(GroupNotFound)
    else
      var valid := FilterTargets(registry, groups[g]);
      FilterEmptyIff(registry, groups[g]);
      if |valid| == 0 then Failure(NoTargetStores)
      else Success(Output(MatrixOf(registry, valid), |valid|))
  }

  /** On success the matrix names are exactly the group's registered targets: a subsequence of
      the group (order kept) holding every target occurrence (duplicates kept) and nothing else. */
  lemma BuildSelectsExactlyTargets(registry: Registry, groups: GroupTable, arg: Option<string>)
    requires Build(registry, groups, arg).Success?
    ensures var g := RequestedGroup(arg);
      var names := Names(Build(registry, groups, arg).value.stores);
      && g in groups
      && IsSubsequence(names, groups[g])
      && (forall x :: multiset(names)[x] == if IsTarget(registry, x) then multiset(groups[g])[x] else 0)
      && names == FilterTargets(registry, groups[g])
  {
    var g := RequestedGroup(arg);
    var names := Names(Build(registry, groups, arg).value.stores);
    assert names == FilterTargets(registry, groups[g]);
    FilterIsSubsequence(registry, groups[g]);
    FilterCounts(registry, groups[g]);
  }

  /** Omitting the argument, passing the empty string, and naming the default group all behave alike. */
  lemma DefaultArgumentEquivalence(registry: Registry, groups: GroupTable)
    ensures Build(registry, groups, None) == Build(registry, groups, Some(""))
    ensures Build(registry, groups, None) == Build(registry, groups, Some(DefaultGroup))
  {
  }

  /** A group listed with no stores at all passes the lookup and fails for want of targets. */
  lemma EmptyGroupHasNoTargets(registry: Registry, groups: GroupTable, arg: Option<string>)
    requires RequestedGroup(arg) in groups && groups[RequestedGroup(arg)] == []
    ensures Build(registry, groups, arg) == Failure(NoTargetStores)
  {
  }

  /** An unregistered or non-target identifier added anywhere to the requested group never changes the outcome. */
  lemma NonTargetIsDroppedSilently(registry: Registry, groups: GroupTable, arg: Option<string>,
                                   a: seq<string>, id: string, b: seq<string>)
    requires !IsTarget(registry, id)
    requires RequestedGroup(arg) in groups && groups[RequestedGroup(arg)] == a + b
    ensures Build(registry, groups[RequestedGroup(arg) := a + [id] + b], arg) == Build(registry, groups, arg)
  {
    FilterDropsNonTarget(registry, a, id, b);
  }

  /** A worked case: of `a` (target), `b` ("global"), `c` (target) and the unregistered `x`,
      only `a` and `c` reach the matrix, with their configurations, and the total is 2. */
  lemma MixedGroupExample()
    ensures var none: map<string, string> := map[];
      var a, b, c := Descriptor("target", none), Descriptor("global", none), Descriptor("target", none);
      var registry := map["a" := a, "b" := b, "c" := c];
      Build(registry, map["g1" := ["a", "b", "c", "x"]], Some("g1"))
        == Success(Output([Entry("a", a), Entry("c", c)], 2))
  {
    var none: map<string, string> := map[];
    var a, b, c := Descriptor("target", none), Descriptor("global", none), Descriptor("target", none);
    var registry := map["a" := a, "b" := b, "c" := c];
    var ids := ["a", "b", "c", "x"];
    assert !IsTarget(registry, "x");
    assert FilterTargets(registry, ids[3..]) == [];
    assert FilterTargets(registry, ids[2..]) == ["c"];
    assert FilterTargets(registry, ids[1..]) == ["c"];
    assert FilterTargets(registry, ids) == ["a", "c"];
    assert MatrixOf(registry, ["a", "c"]) == [Entry("a", a), Entry("c", c)];
    assert RequestedGroup(Some("g1")) == "g1";
  }

  /** The script's sequential pipeline: look up, filter with a loop, stop when empty, build the matrix with a loop. */
  method PrepareDeployment(registry: Registry, groups: GroupTable, arg: Option<string>)
    returns (r: Result<Output, Error>)
    ensures r == Build(registry, groups, arg)
  {
    var g := RequestedGroup(arg);
    if g !in groups {
      return Failure(GroupNotFound);
    }
    var ids := groups[g];
    var valid: seq<string> := [];
    var i := 0;
    while i < |ids|
      invariant 0 <= i <= |ids|
      invariant valid == FilterTargets(registry, ids[..i])
    {
      FilterAppend(registry, ids[..i], [ids[i]]);
      assert ids[..i + 1] == ids[..i] + [ids[i]];
      if ids[i] in registry && registry[ids[i]].kind == TargetKind {
        valid := valid + [ids[i]];
      }
      i := i + 1;
    }
    assert ids[..i] == ids;
    if |valid| == 0 {
      return Failure(NoTargetStores);
    }
    var matrix: seq<Entry> := [];
    var j := 0;
    while j < |valid|
      invariant 0 <= j <= |valid|
      invariant |matrix| == j
      invariant forall k :: 0 <= k < j ==> matrix[k] == Entry(valid[k], registry[valid[k]])
    {
      matrix := matrix + [Entry(valid[j], registry[valid[j]])];
      j := j + 1;
    }
    assert matrix == MatrixOf(registry, valid);
    r := Success(Output(matrix, |valid|));
  }
}
