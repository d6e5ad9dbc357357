/**
 * The branch plan as the repository builder reads it (`create_life_repo`):
 * the index-to-branch lookup and the per-branch sets of indices still owed.
 * No plan validation happens in the builder, so an index listed by two entries
 * is routed to the later one, and an entry's name may repeat.
 */
module BranchPlan {
  import opened Wrappers

  /**
   * One entry of the plan: its name, the original event indices listed on it,
   * the `merges` flag (absent means merging) and the merge message, absent or a string.
   */
  datatype BranchEntry = BranchEntry(name: string, eventsOnBranch: seq<int>, merges: Option<bool>, mergeMessage: Option<string>)

  /** `branch_info.get("merges", True)`. */
  predicate ShouldMerge(e: BranchEntry) {
    e.merges != Some(false)
  }

  /** `branch_info.get("merge_message", f"Merge branch '{name}'")`. */
  function MergeMessage(e: BranchEntry): (r: string)
    ensures e.mergeMessage.None? ==> r == "Merge branch '" + e.name + "'"
    ensures e.mergeMessage.Some? ==> r == e.mergeMessage.value
  {
    match e.mergeMessage
    case Some(m) => m
    case None => "Merge branch '" + e.name + "'"
  }

  /** `for idx in entry["events_on_branch"]: lookup[idx] = entry`. */
  function RouteEntry(route: map<int, BranchEntry>, e: BranchEntry, idxs: seq<int>): (r: map<int, BranchEntry>)
    ensures forall i :: i in r <==> i in route || i in idxs
    ensures forall i :: i in r && i !in idxs ==> r[i] == route[i]
    ensures forall i :: i in idxs ==> r[i] == e
  {
    if idxs == [] then route
    else RouteEntry(route, e, idxs[..|idxs| - 1])[idxs[|idxs| - 1] := e]
  }

  /** `event_to_branch`, filled entry by entry: later entries overwrite earlier ones. */
  function Route(plan: seq<BranchEntry>): map<int, BranchEntry> {
    if plan == [] then map[]
    else
      var last := plan[|plan| - 1];
      RouteEntry(Route(plan[..|plan| - 1]), last, last.eventsOnBranch)
  }

  /** Entry `j` is the last entry of the plan listing index `i`. */
  predicate LastListing(plan: seq<BranchEntry>, j: int, i: int) {
    && 0 <= j < |plan|
    && i in plan[j].eventsOnBranch
    && forall k :: j < k < |plan| ==> i !in plan[k].eventsOnBranch
  }

  /** An index is routed exactly when some entry lists it. */
  lemma {:induction false} RouteDomain(plan: seq<BranchEntry>, i: int)
    ensures i in Route(plan) <==> exists j :: 0 <= j < |plan| && i in plan[j].eventsOnBranch
  {
    if plan != [] {
      var n := |plan| - 1;
      var prev := plan[..n];
      RouteDomain(prev, i);
      if i in Route(plan) && i !in plan[n].eventsOnBranch {
        var j :| 0 <= j < n && i in prev[j].eventsOnBranch;
        assert plan[j] == prev[j];
      }
      if j :| 0 <= j < n && i in plan[j].eventsOnBranch {
        assert plan[j] == prev[j];
      }
    }
  }

  /** An index is routed to the last entry that lists it. */
  lemma {:induction false} RouteLastWriter(plan: seq<BranchEntry>, j: int, i: int)
    requires LastListing(plan, j, i)
    ensures i in Route(plan) && Route(plan)[i] == plan[j]
  {
    var n := |plan| - 1;
    var prev := plan[..n];
    var last := plan[n];
    RouteSnoc(plan);
    if j < n {
      assert LastListing(prev, j, i) by {
        assert prev[j] == plan[j];
        forall k | j < k < n ensures i !in prev[k].eventsOnBranch {
          assert prev[k] == plan[k];
        }
      }
      RouteLastWriter(prev, j, i);
      assert i !in last.eventsOnBranch;
    }
  }

  /** The route of a plan is the route of all but its last entry, overwritten by that entry. */
  lemma RouteSnoc(plan: seq<BranchEntry>)
    requires plan != []
    ensures Route(plan) == RouteEntry(Route(plan[..|plan| - 1]), plan[|plan| - 1], plan[|plan| - 1].eventsOnBranch)
  {
  }

  /** Every routed index leads to an entry of the plan that lists it. */
  lemma {:induction false} RouteFromPlan(plan: seq<BranchEntry>, i: int)
    requires i in Route(plan)
    ensures exists j :: 0 <= j < |plan| && Route(plan)[i] == plan[j] && i in plan[j].eventsOnBranch
  {
    var n := |plan| - 1;
    var prev := plan[..n];
    if i !in plan[n].eventsOnBranch {
      RouteFromPlan(prev, i);
      var j :| 0 <= j < |prev| && Route(prev)[i] == prev[j] && i in prev[j].eventsOnBranch;
      assert plan[j] == prev[j];
    }
  }

  /** The indices of a list, as a set. */
  function Indices(idxs: seq<int>): (r: set<int>)
    ensures forall i :: i in r <==> i in idxs
  {
    set i | i in idxs
  }

  /** `branch_remaining`: each entry's name maps to its listed indices; a later entry of the same name replaces an earlier one. */
  function Remaining(plan: seq<BranchEntry>): map<string, set<int>> {
    if plan == [] then map[]
    else
      var last := plan[|plan| - 1];
      Remaining(plan[..|plan| - 1])[last.name := Indices(last.eventsOnBranch)]
  }

  /** Entry `j` is the last entry of the plan with its name. */
  predicate LastNamed(plan: seq<BranchEntry>, j: int) {
    && 0 <= j < |plan|
    && forall k :: j < k < |plan| ==> plan[k].name != plan[j].name
  }

  /** Exactly the names of the entries have a remaining set. */
  lemma {:induction false} RemainingDomain(plan: seq<BranchEntry>, x: string)
    ensures x in Remaining(plan) <==> exists j :: 0 <= j < |plan| && plan[j].name == x
  {
    if plan != [] {
      var n := |plan| - 1;
      var prev := plan[..n];
      RemainingDomain(prev, x);
      if x in Remaining(plan) && x != plan[n].name {
        var j :| 0 <= j < n && prev[j].name == x;
        assert plan[j] == prev[j];
      }
      if j :| 0 <= j < n && plan[j].name == x {
        assert plan[j] == prev[j];
      }
    }
  }

  /** A name's remaining set is the index list of the last entry of that name. */
  lemma {:induction false} RemainingLastWriter(plan: seq<BranchEntry>, j: int)
    requires LastNamed(plan, j)
    ensures plan[j].name in Remaining(plan) && Remaining(plan)[plan[j].name] == Indices(plan[j].eventsOnBranch)
  {
    var n := |plan| - 1;
    if j < n {
      var prev := plan[..n];
      assert LastNamed(prev, j) by {
        assert prev[j] == plan[j];
        forall k | j < k < n ensures prev[k].name != prev[j].name {
          assert prev[k] == plan[k];
        }
      }
      RemainingLastWriter(prev, j);
      assert plan[n].name != plan[j].name;
    }
  }

  /** The entry an index is routed to has a remaining set (so the builder's `discard` never fails). */
  lemma RoutedNamesHaveRemaining(plan: seq<BranchEntry>)
    ensures forall i :: i in Route(plan) ==> Route(plan)[i].name in Remaining(plan)
  {
    forall i | i in Route(plan) ensures Route(plan)[i].name in Remaining(plan) {
      RouteFromPlan(plan, i);
      var j :| 0 <= j < |plan| && Route(plan)[i] == plan[j] && i in plan[j].eventsOnBranch;
      RemainingDomain(plan, plan[j].name);
    }
  }
}
