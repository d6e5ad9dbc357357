/**
 * `create_life_repo`: the life events, sorted by date, become commits of a
 * fresh repository. One initial commit lands on `main`; each event is
 * committed on the branch the plan routes it to (created from `main` on first
 * use) or on `main`; a branch is merged back into `main` as soon as its last
 * owed event has been committed, unless its entry says it never merges. The
 * builder records which branch each commit belongs to, which commits are
 * merges of which branch, each event's keyword, and the order branches were
 * opened in.
 *
 * `Step` and `Run` state the builder functionally; `CreateLifeRepo` is the
 * imperative builder over a `Repo`, proved to produce exactly that result.
 */
module LifeRepo {
  import opened Wrappers
  import opened Lists
  import opened GitStore
  import opened BranchPlan
  import StableSort

  /** One formatted event: its commit message, its date (already parsed, as a number), description and keyword (`""` when absent). */
  datatype Event = Event(commitMessage: string, date: int, description: string, keyword: string)

  /** Why the builder raises: no events at all, or `git checkout -b` of a name that exists (`main`). */
  datatype BuildError = NoEvents | BranchExists(name: string)

  const InitMessage := "Initialize life story"

  /**
   * The builder's state between events: the repository, the branches created
   * so far, the indices each branch still owes, the three metadata maps, the
   * branch order, and (for the proofs) the commit made for each event index.
   */
  datatype BuildState = BuildState(
    git: Git,
    created: set<string>,
    remaining: map<string, set<int>>,
    branchMap: map<nat, string>,
    mergeCommits: map<nat, string>,
    keywordMap: map<nat, string>,
    branchOrder: seq<string>,
    commitOf: map<nat, nat>)

  /** What the builder writes out as branch metadata. */
  datatype Meta = Meta(branchMap: map<nat, string>, branchOrder: seq<string>, mergeCommits: map<nat, string>, keywordMap: map<nat, string>)

  /** The dates the events are sorted by. */
  function Dates(events: seq<Event>): (r: seq<real>)
    ensures |r| == |events| && forall i :: 0 <= i < |events| ==> r[i] == events[i].date as real
  {
    seq(|events|, i requires 0 <= i < |events| => events[i].date as real)
  }

  /** The state facts every step keeps. */
  ghost predicate Wf(b: BuildState, route: map<int, BranchEntry>) {
    && b.git.refs.Keys == {Main} + b.created
    && Main !in b.created
    && (forall i :: i in route ==> route[i].name in b.remaining)
  }

  /** Every commit id the state mentions is a commit of its repository, whose parents come before it. */
  ghost predicate Bounded(b: BuildState) {
    && Valid(b.git)
    && (forall c: nat :: c in b.branchMap <==> c < |b.git.commits|)
    && (forall c :: c in b.mergeCommits ==> c < |b.git.commits|)
    && (forall c :: c in b.keywordMap ==> c < |b.git.commits|)
    && (forall i :: i in b.commitOf ==> b.commitOf[i] < |b.git.commits|)
  }

  /** `keyword_map[sha] = event["keyword"]` when the keyword is not empty. */
  function NoteKeyword(keywordMap: map<nat, string>, c: nat, ev: Event): (r: map<nat, string>)
    ensures ev.keyword == "" ==> r == keywordMap
    ensures ev.keyword != "" ==> r == keywordMap[c := ev.keyword]
  {
    if ev.keyword != "" then keywordMap[c := ev.keyword] else keywordMap
  }

  /** The branch the event at `idx` is committed on. */
  function BranchOf(route: map<int, BranchEntry>, idx: nat): string {
    if idx in route then route[idx].name else Main
  }

  /**
   * One event of the sorted timeline. A routed event checks out its branch,
   * creating it from `main` first if it is new, commits there, and leaves the
   * branch's owed set; if that set is now empty and the entry merges, `main` is
   * checked out and the branch merged with the entry's message at the event's
   * date. Any other event checks out `main` and commits there.
   */
  function Step(events: seq<Event>, route: map<int, BranchEntry>, b: BuildState, idx: nat): (r: Result<BuildState, BuildError>)
    requires idx < |events| && Wf(b, route)
    ensures r.Ok? ==> Wf(r.value, route)
  {
    if idx in route then
      var e := route[idx];
      match SwitchTo(b, e.name)
      case None => Err(BranchExists(e.name))
      case Some(g) =>
        var b1 := OnBranch(events[idx], route, b, idx, e.name, g);
        if b1.remaining[e.name] == {} && ShouldMerge(e) then Ok(MergeBack(route, b1, e, events[idx].date))
        else Ok(b1)
    else Ok(OnMain(events[idx], route, b, idx))
  }

  /** `git checkout <name>` of a created branch, or `checkout main` then `checkout -b <name>` of a new one. */
  function SwitchTo(b: BuildState, name: string): (r: Option<Git>)
    requires b.git.refs.Keys == {Main} + b.created && Main !in b.created
    ensures r.None? <==> name == Main
    ensures r.Some? && Valid(b.git) ==> Valid(r.value)
    ensures r.Some? ==> r.value.commits == b.git.commits && r.value.head == name
    ensures r.Some? ==> r.value.refs.Keys == {Main} + b.created + {name} && r.value.refs[Main] == b.git.refs[Main]
    ensures r.Some? && name !in b.created ==> r.value.refs[name] == b.git.refs[Main]
    ensures r.Some? && name in b.created ==> r.value.refs == b.git.refs
  {
    if name in b.created then Some(WithCheckout(b.git, name)) else WithNewBranch(WithCheckout(b.git, Main), name)
  }

  /** The commit of a routed event on its (checked-out) branch `name`, and the bookkeeping that goes with it. */
  function OnBranch(ev: Event, route: map<int, BranchEntry>, b: BuildState, idx: nat, name: string, g: Git): (r: BuildState)
    requires Wf(b, route) && name != Main && name in b.remaining
    requires g.commits == b.git.commits && g.head == name && g.refs.Keys == {Main} + b.created + {name}
    ensures Wf(r, route) && name in r.remaining
  {
    var c := |b.git.commits|;
    var order := if name in b.created || name in b.branchOrder then b.branchOrder else b.branchOrder + [name];
    BuildState(WithCommit(g, ev.commitMessage, ev.date), b.created + {name}, b.remaining[name := b.remaining[name] - {idx}],
      b.branchMap[c := name], b.mergeCommits, NoteKeyword(b.keywordMap, c, ev), order, b.commitOf[idx := c])
  }

  /** `checkout main` and merge branch `e.name` into it. */
  function MergeBack(route: map<int, BranchEntry>, b: BuildState, e: BranchEntry, date: int): (r: BuildState)
    requires Wf(b, route) && e.name in b.git.refs
    ensures Wf(r, route)
  {
    var c := |b.git.commits|;
    b.(git := WithMerge(WithCheckout(b.git, Main), e.name, MergeMessage(e), date),
       branchMap := b.branchMap[c := Main],
       mergeCommits := b.mergeCommits[c := e.name])
  }

  /** The commit of an event no entry claims: `checkout main`, then commit. */
  function OnMain(ev: Event, route: map<int, BranchEntry>, b: BuildState, idx: nat): (r: BuildState)
    requires Wf(b, route)
    ensures Wf(r, route)
  {
    var c := |b.git.commits|;
    b.(git := WithCommit(WithCheckout(b.git, Main), ev.commitMessage, ev.date),
       branchMap := b.branchMap[c := Main],
       keywordMap := NoteKeyword(b.keywordMap, c, ev),
       commitOf := b.commitOf[idx := c])
  }

  /** Every entry of `order` is an event index. */
  predicate Indexes(events: seq<Event>, order: seq<nat>) {
    forall k :: 0 <= k < |order| ==> order[k] < |events|
  }

  /** The events at the positions of `order`, one step after another, stopping at the first failure. */
  function Run(events: seq<Event>, route: map<int, BranchEntry>, b: BuildState, order: seq<nat>): (r: Result<BuildState, BuildError>)
    requires Indexes(events, order) && Wf(b, route)
    ensures r.Ok? ==> Wf(r.value, route)
  {
    if order == [] then Ok(b)
    else
      match Run(events, route, b, order[..|order| - 1])
      case Err(x) => Err(x)
      case Ok(b1) => Step(events, route, b1, order[|order| - 1])
  }

  /** The state after the initial commit on `main`, dated at the earliest event. */
  function Start(plan: seq<BranchEntry>, date: int): (r: BuildState)
    ensures Wf(r, Route(plan)) && Bounded(r)
  {
    RoutedNamesHaveRemaining(plan);
    BuildState(WithCommit(Empty(), InitMessage, date), {}, Remaining(plan), map[0 := Main], map[], map[], [Main], map[])
  }

  /**
   * The repository and metadata `create_life_repo` produces for the events in
   * their stable date order `order`, ending with `main` checked out.
   */
  function CreatedRepo(events: seq<Event>, plan: seq<BranchEntry>, order: seq<nat>): (r: Result<BuildState, BuildError>)
    requires StableSort.IsStableOrder(Dates(events), order)
  {
    if events == [] then Err(NoEvents)
    else
      match Run(events, Route(plan), Start(plan, events[order[0]].date), order)
      case Err(x) => Err(x)
      case Ok(b) => Ok(b.(git := WithCheckout(b.git, Main)))
  }

  /** A step keeps every commit id the state mentions within the repository. */
  lemma StepBounded(events: seq<Event>, route: map<int, BranchEntry>, b: BuildState, idx: nat)
    requires idx < |events| && Wf(b, route) && Bounded(b)
    requires Step(events, route, b, idx).Ok?
    ensures Bounded(Step(events, route, b, idx).value)
  {
    if idx in route {
      var e := route[idx];
      var g := SwitchTo(b, e.name).value;
      OnBranchBounded(events[idx], route, b, idx, e.name, g);
      var b1 := OnBranch(events[idx], route, b, idx, e.name, g);
      if b1.remaining[e.name] == {} && ShouldMerge(e) {
        MergeBackBounded(route, b1, e, events[idx].date);
      }
    } else {
      OnMainBounded(events[idx], route, b, idx);
    }
  }

  lemma OnBranchBounded(ev: Event, route: map<int, BranchEntry>, b: BuildState, idx: nat, name: string, g: Git)
    requires Wf(b, route) && name != Main && name in b.remaining
    requires g.commits == b.git.commits && g.head == name && g.refs.Keys == {Main} + b.created + {name}
    requires Bounded(b) && Valid(g)
    ensures Bounded(OnBranch(ev, route, b, idx, name, g))
  {
  }

  lemma MergeBackBounded(route: map<int, BranchEntry>, b: BuildState, e: BranchEntry, date: int)
    requires Wf(b, route) && e.name in b.git.refs && Bounded(b)
    ensures Bounded(MergeBack(route, b, e, date))
  {
  }

  lemma OnMainBounded(ev: Event, route: map<int, BranchEntry>, b: BuildState, idx: nat)
    requires Wf(b, route) && Bounded(b)
    ensures Bounded(OnMain(ev, route, b, idx))
  {
  }

  /** A run keeps every commit id the state mentions within the repository. */
  lemma {:induction false} RunBounded(events: seq<Event>, route: map<int, BranchEntry>, b: BuildState, order: seq<nat>)
    requires Indexes(events, order) && Wf(b, route) && Bounded(b)
    requires Run(events, route, b, order).Ok?
    ensures Bounded(Run(events, route, b, order).value)
  {
    if order != [] {
      var prev := order[..|order| - 1];
      RunBounded(events, route, b, prev);
      StepBounded(events, route, Run(events, route, b, prev).value, order[|order| - 1]);
    }
  }

  /** A failed prefix fails the whole run with the same error. */
  lemma {:induction false} RunFailsFrom(events: seq<Event>, route: map<int, BranchEntry>, b: BuildState, order: seq<nat>, k: nat)
    requires Indexes(events, order) && Wf(b, route) && k <= |order|
    requires Run(events, route, b, order[..k]).Err?
    ensures Run(events, route, b, order) == Run(events, route, b, order[..k])
    decreases |order| - k
  {
    if k < |order| {
      assert order[..k + 1][..k] == order[..k];
      RunFailsFrom(events, route, b, order, k + 1);
    } else {
      assert order[..k] == order;
    }
  }

  /**
   * `create_life_repo`: sorts the events by date (stably), builds the
   * index-to-entry lookup and the owed sets, makes the initial commit and then
   * commits event after event, merging exhausted branches; ends on `main`.
   */
  method CreateLifeRepo(events: seq<Event>, plan: seq<BranchEntry>) returns (r: Result<Meta, BuildError>, repo: Repo, ghost order: seq<nat>)
    ensures fresh(repo)
    ensures StableSort.IsStableOrder(Dates(events), order)
    ensures r.Err? <==> CreatedRepo(events, plan, order).Err?
    ensures r.Err? ==> r.error == CreatedRepo(events, plan, order).error
    ensures events == [] ==> repo.commits == []
    ensures r.Ok? ==>
      var b := CreatedRepo(events, plan, order).value;
      && repo.Value() == b.git
      && r.value == Meta(b.branchMap, b.branchOrder, b.mergeCommits, b.keywordMap)
  {
    var sorted := StableSort.StableOrder(Dates(events));
    order := sorted;
    if events == [] {
      repo := new Repo.Init();
      return Err(NoEvents), repo, order;
    }
    var route := BuildRoute(plan);
    var builder := new RepoBuilder(plan, events[sorted[0]].date);
    repo := builder.repo;
    ghost var run := Run(events, route, builder.State(), sorted);
    assert CreatedRepo(events, plan, order) == match run
      case Err(x) => Err(x)
      case Ok(b) => Ok(b.(git := WithCheckout(b.git, Main)));
    var failure := builder.CommitAll(events, route, sorted);
    if failure.Some? {
      return Err(failure.value), repo, order;
    }
    repo.Checkout(Main);
    r := Ok(Meta(builder.branchMap, builder.branchOrder, builder.mergeCommits, builder.keywordMap));
  }

  /** The local state of `create_life_repo`, updated event by event. */
  class RepoBuilder {
    const repo: Repo
    var created: set<string>
    var remaining: map<string, set<int>>
    var branchMap: map<nat, string>
    var mergeCommits: map<nat, string>
    var keywordMap: map<nat, string>
    var branchOrder: seq<string>
    ghost var commitOf: map<nat, nat>

    ghost function State(): BuildState
      reads this, repo
    {
      BuildState(repo.Value(), created, remaining, branchMap, mergeCommits, keywordMap, branchOrder, commitOf)
    }

    /** A new repository with its initial commit, the owed sets of the plan and empty metadata. */
    constructor(plan: seq<BranchEntry>, date: int)
      ensures fresh(repo) && State() == Start(plan, date)
    {
      var owed := BuildRemaining(plan);
      repo := new Repo.Init();
      remaining := owed;
      created := {};
      branchMap := map[0 := Main];
      mergeCommits := map[];
      keywordMap := map[];
      branchOrder := [Main];
      commitOf := map[];
      new;
      var _ := repo.CommitOnHead(InitMessage, date);
    }

    /** The loop of `create_life_repo` over the events in the order `order`, stopping at the first error. */
    method CommitAll(events: seq<Event>, route: map<int, BranchEntry>, order: seq<nat>) returns (failure: Option<BuildError>)
      requires Indexes(events, order) && Wf(State(), route)
      modifies this, repo
      ensures var s := Run(events, route, old(State()), order);
        && (failure.None? <==> s.Ok?)
        && (failure.None? ==> State() == s.value)
        && (failure.Some? ==> failure.value == s.error)
    {
      ghost var start := State();
      for k := 0 to |order|
        invariant Run(events, route, start, order[..k]) == Ok(State())
      {
        assert order[..k + 1][..k] == order[..k];
        var ok := CommitEvent(events, route, order[k]);
        if !ok {
          RunFailsFrom(events, route, start, order, k + 1);
          return Some(BranchExists(route[order[k]].name));
        }
      }
      assert order[..|order|] == order;
      return None;
    }

    /** The loop body of `create_life_repo` for the event at `idx`; `false` where git refuses to create the branch. */
    method CommitEvent(events: seq<Event>, route: map<int, BranchEntry>, idx: nat) returns (ok: bool)
      requires idx < |events| && Wf(State(), route)
      modifies this, repo
      ensures var s := Step(events, route, old(State()), idx);
        && (ok <==> s.Ok?)
        && (ok ==> State() == s.value)
        && (!ok ==> idx in route && s == Err(BranchExists(route[idx].name)))
    {
      if idx !in route {
        CommitOnMain(events[idx], route, idx);
        return true;
      }
      var e := route[idx];
      ok := OpenBranch(e.name);
      if !ok {
        return;
      }
      ghost var g := repo.Value();
      CommitOnBranch(events[idx], route, idx, e.name, g);
      if remaining[e.name] == {} && ShouldMerge(e) {
        MergeIntoMain(route, e, events[idx].date);
      }
    }

    /** An event no entry claims: `checkout main`, commit, record. */
    method CommitOnMain(ev: Event, route: map<int, BranchEntry>, idx: nat)
      requires Wf(State(), route)
      modifies this, repo
      ensures State() == OnMain(ev, route, old(State()), idx)
    {
      repo.Checkout(Main);
      var c := repo.CommitOnHead(ev.commitMessage, ev.date);
      branchMap := branchMap[c := Main];
      if ev.keyword != "" {
        keywordMap := keywordMap[c := ev.keyword];
      }
      commitOf := commitOf[idx := c];
    }

    /** A routed event, with its branch `name` already checked out as `g`: commit, record, and strike it from the owed set. */
    method CommitOnBranch(ev: Event, route: map<int, BranchEntry>, idx: nat, name: string, ghost g: Git)
      requires repo.Value() == g && name in remaining
      modifies this, repo
      ensures State() == old(State()).(git := WithCommit(g, ev.commitMessage, ev.date),
        remaining := old(remaining)[name := old(remaining)[name] - {idx}],
        branchMap := old(branchMap)[|g.commits| := name],
        keywordMap := NoteKeyword(old(keywordMap), |g.commits|, ev),
        commitOf := old(commitOf)[idx := |g.commits|])
    {
      var c := repo.CommitOnHead(ev.commitMessage, ev.date);
      branchMap := branchMap[c := name];
      if ev.keyword != "" {
        keywordMap := keywordMap[c := ev.keyword];
      }
      remaining := remaining[name := remaining[name] - {idx}];
      commitOf := commitOf[idx := c];
    }

    /** `checkout main`, merge the exhausted branch, record the merge commit. */
    method MergeIntoMain(route: map<int, BranchEntry>, e: BranchEntry, date: int)
      requires Wf(State(), route) && e.name in repo.refs
      modifies this, repo
      ensures State() == MergeBack(route, old(State()), e, date)
    {
      repo.Checkout(Main);
      var m := repo.Merge(e.name, MergeMessage(e), date);
      branchMap := branchMap[m := Main];
      mergeCommits := mergeCommits[m := e.name];
    }

    /** Check out branch `name`, creating it from `main` (and listing it in the branch order) if it is new. */
    method OpenBranch(name: string) returns (ok: bool)
      requires repo.refs.Keys == {Main} + created && Main !in created
      modifies this, repo
      ensures var s := SwitchTo(old(State()), name);
        && (ok <==> s.Some?)
        && (ok ==> repo.Value() == s.value)
        && (ok ==> created == old(created) + {name})
        && (ok ==> branchOrder == if name in old(created) || name in old(branchOrder) then old(branchOrder) else old(branchOrder) + [name])
      ensures remaining == old(remaining) && branchMap == old(branchMap) && mergeCommits == old(mergeCommits)
      ensures keywordMap == old(keywordMap) && commitOf == old(commitOf)
    {
      if name in created {
        repo.Checkout(name);
        return true;
      }
      repo.Checkout(Main);
      ok := repo.CheckoutNew(name);
      if ok {
        created := created + {name};
        if name !in branchOrder {
          branchOrder := branchOrder + [name];
        }
      }
    }
  }

  /** `event_to_branch`: for each entry, for each listed index, the index now leads to that entry. */
  method BuildRoute(plan: seq<BranchEntry>) returns (route: map<int, BranchEntry>)
    ensures route == Route(plan)
  {
    route := map[];
    for j := 0 to |plan|
      invariant route == Route(plan[..j])
    {
      assert plan[..j + 1][..j] == plan[..j];
      var e := plan[j];
      for t := 0 to |e.eventsOnBranch|
        invariant route == RouteEntry(Route(plan[..j]), e, e.eventsOnBranch[..t])
      {
        assert e.eventsOnBranch[..t + 1][..t] == e.eventsOnBranch[..t];
        route := route[e.eventsOnBranch[t] := e];
      }
      assert e.eventsOnBranch[..|e.eventsOnBranch|] == e.eventsOnBranch;
    }
    assert plan[..|plan|] == plan;
  }

  /** `branch_remaining`: each entry's name gets the set of its listed indices. */
  method BuildRemaining(plan: seq<BranchEntry>) returns (remaining: map<string, set<int>>)
    ensures remaining == Remaining(plan)
  {
    remaining := map[];
    for j := 0 to |plan|
      invariant remaining == Remaining(plan[..j])
    {
      assert plan[..j + 1][..j] == plan[..j];
      remaining := remaining[plan[j].name := Indices(plan[j].eventsOnBranch)];
    }
    assert plan[..|plan|] == plan;
  }
}
