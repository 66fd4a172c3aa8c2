/** The store registry and the selection of deployable target stores from a group. */
module Stores {
  import opened Sequences

  /** The type tag that marks a store as deployable. */
  const TargetKind: string := "target"

  /** A store's configuration. Only its type tag is inspected; the other fields travel along untouched. */
  datatype Descriptor = Descriptor(kind: string, settings: map<string, string>)

  /** Store identifier to store configuration. */
  type Registry = map<string, Descriptor>

  /** True iff `id` names a registered store whose type tag is exactly "target". */
  predicate IsTarget(registry: Registry, id: string) {
    id in registry && registry[id].kind == TargetKind
  }

  /** The identifiers of `ids` that are registered target stores, in their original order,
      duplicates kept; every other identifier is dropped without complaint. */
  function FilterTargets(registry: Registry, ids: seq<string>): (valid: seq<string>)
    ensures |valid| <= |ids|
    ensures forall i :: 0 <= i < |valid| ==> IsTarget(registry, valid[i]) && valid[i] in ids
    decreases |ids|
  {
    if |ids| == 0 then []
    else if IsTarget(registry, ids[0]) then [ids[0]] + FilterTargets(registry, ids[1..])
    else FilterTargets(registry, ids[1..])
  }

  /** Filtering a concatenation filters each part separately. */
  lemma {:induction false} FilterAppend(registry: Registry, a: seq<string>, b: seq<string>)
    ensures FilterTargets(registry, a + b) == FilterTargets(registry, a) + FilterTargets(registry, b)
    decreases |a|
  {
    if |a| == 0 {
      assert a + b == b;
    } else {
      assert (a + b)[0] == a[0];
      assert (a + b)[1..] == a[1..] + b;
      FilterAppend(registry, a[1..], b);
    }
  }

  /** The surviving identifiers keep the relative order they had in the group. */
  lemma {:induction false} FilterIsSubsequence(registry: Registry, ids: seq<string>)
    ensures IsSubsequence(FilterTargets(registry, ids), ids)
    decreases |ids|
  {
    if |ids| > 0 {
      FilterIsSubsequence(registry, ids[1..]);
      var rest := FilterTargets(registry, ids[1..]);
      if IsTarget(registry, ids[0]) {
        assert ([ids[0]] + rest)[1..] == rest;
      } else if |rest| > 0 {
        assert IsSubsequence(rest, ids[1..]);
      }
    }
  }

  /** A target identifier survives exactly as often as it occurs in the group; any other identifier never survives. */
  lemma {:induction false} FilterCounts(registry: Registry, ids: seq<string>)
    ensures forall x :: multiset(FilterTargets(registry, ids))[x]
                        == if IsTarget(registry, x) then multiset(ids)[x] else 0
    decreases |ids|
  {
    if |ids| > 0 {
      FilterCounts(registry, ids[1..]);
      assert ids == [ids[0]] + ids[1..];
    }
  }

  /** The filter keeps nothing exactly when the group holds no registered target identifier. */
  lemma {:induction false} FilterEmptyIff(registry: Registry, ids: seq<string>)
    ensures FilterTargets(registry, ids) == [] <==> forall id :: id in ids ==> !IsTarget(registry, id)
    decreases |ids|
  {
    if |ids| > 0 {
      FilterEmptyIff(registry, ids[1..]);
      assert ids == [ids[0]] + ids[1..];
    }
  }

  /** Inserting an identifier that is not a registered target anywhere in a group changes nothing. */
  lemma {:induction false} FilterDropsNonTarget(registry: Registry, a: seq<string>, id: string, b: seq<string>)
    requires !IsTarget(registry, id)
    ensures FilterTargets(registry, a + [id] + b) == FilterTargets(registry, a + b)
  {
    FilterAppend(registry, a + [id], b);
    FilterAppend(registry, a, [id]);
    FilterAppend(registry, a, b);
    assert [id][1..] == [];
  }

  /** Filtering an already filtered sequence keeps all of it. */
  lemma {:induction false} FilterIdempotent(registry: Registry, ids: seq<string>)
    ensures FilterTargets(registry, FilterTargets(registry, ids)) == FilterTargets(registry, ids)
    decreases |ids|
  {
    if |ids| > 0 {
      FilterIdempotent(registry, ids[1..]);
      var rest := FilterTargets(registry, ids[1..]);
      if IsTarget(registry, ids[0]) {
        assert ([ids[0]] + rest)[1..] == rest;
      }
    }
  }

  /** Reference definition: the filter is the ONLY sequence that is a subsequence of the group,
      consists of registered targets, and keeps every occurrence of every target. */
  lemma {:induction false} FilterUnique(registry: Registry, s: seq<string>, ids: seq<string>)
    requires IsSubsequence(s, ids)
    requires forall i :: 0 <= i < |s| ==> IsTarget(registry, s[i])
    requires forall x :: IsTarget(registry, x) ==> multiset(s)[x] == multiset(ids)[x]
    ensures s == FilterTargets(registry, ids)
    decreases |ids|
  {
    if |ids| == 0 {
      SubsequenceMultiset(s, ids);
    } else {
      var y, rest := ids[0], ids[1..];
      assert ids == [y] + rest;
      if IsTarget(registry, y) {
        assert multiset(s)[y] > 0;
        assert |s| > 0;
        if s[0] == y && IsSubsequence(s[1..], rest) {
          assert s == [y] + s[1..];
          forall x | IsTarget(registry, x)
            ensures multiset(s[1..])[x] == multiset(rest)[x]
          {
          }
          FilterUnique(registry, s[1..], rest);
        } else {
          assert IsSubsequence(s, rest);
          SubsequenceMultiset(s, rest);
          assert false;
        }
      } else {
        if |s| > 0 {
          assert s[0] != y;
          assert IsSubsequence(s, rest);
        }
        forall x | IsTarget(registry, x)
          ensures multiset(s)[x] == multiset(rest)[x]
        {
          assert x != y;
        }
        FilterUnique(registry, s, rest);
      }
    }
  }
}
