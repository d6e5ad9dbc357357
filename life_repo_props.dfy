/**
 * What `create_life_repo` guarantees about the repository it builds, proved
 * about the functional statement of the builder (`LifeRepo.Run`), which the
 * imperative builder is proved to follow.
 */
module LifeRepoProps {
  import opened Wrappers
  import opened Lists
  import opened GitStore
  import opened BranchPlan
  import opened LifeRepo
  import StableSort

  // ------------------------------------------------------------ failure

  /** The event at `i` is routed to an entry named `main`. */
  predicate RoutedToMain(route: map<int, BranchEntry>, i: int) {
    i in route && route[i].name == Main
  }

  /** The step fails exactly for an event routed to an entry named `main` (git refuses `checkout -b main`). */
  lemma StepFails(events: seq<Event>, route: map<int, BranchEntry>, b: BuildState, idx: nat)
    requires idx < |events| && Wf(b, route)
    ensures Step(events, route, b, idx).Err? <==> RoutedToMain(route, idx)
    ensures Step(events, route, b, idx).Err? ==> Step(events, route, b, idx).error == BranchExists(Main)
  {
  }

  /** A run fails exactly when one of its events is routed to an entry named `main`. */
  lemma {:induction false} RunFails(events: seq<Event>, route: map<int, BranchEntry>, b: BuildState, order: seq<nat>)
    requires Indexes(events, order) && Wf(b, route)
    ensures Run(events, route, b, order).Err? <==> exists i :: i in order && RoutedToMain(route, i)
    ensures Run(events, route, b, order).Err? ==> Run(events, route, b, order).error == BranchExists(Main)
  {
    if order != [] {
      var n := |order| - 1;
      var prev := order[..n];
      RunFails(events, route, b, prev);
      if Run(events, route, b, prev).Ok? {
        StepFails(events, route, Run(events, route, b, prev).value, order[n]);
      }
      SnocMembers(order);
    }
  }

  /**
   * `create_life_repo` raises exactly when there are no events, or when some
   * event is routed to a plan entry named `main`.
   */
  lemma CreatedRepoFails(events: seq<Event>, plan: seq<BranchEntry>, order: seq<nat>)
    requires StableSort.IsStableOrder(Dates(events), order)
    ensures CreatedRepo(events, plan, order) == Err(NoEvents) <==> events == []
    ensures CreatedRepo(events, plan, order).Err? <==>
      events == [] || exists i :: 0 <= i < |events| && RoutedToMain(Route(plan), i)
  {
    if events != [] {
      var route := Route(plan);
      var s0 := Start(plan, events[order[0]].date);
      RunFails(events, route, s0, order);
      CreatedRepoRun(events, plan, order);
      RoutedToMainInOrder(events, route, order);
    }
  }

  /** Over a non-empty event list, the builder fails exactly when its run does, with the same error. */
  lemma CreatedRepoRun(events: seq<Event>, plan: seq<BranchEntry>, order: seq<nat>)
    requires StableSort.IsStableOrder(Dates(events), order) && events != []
    ensures var s := Run(events, Route(plan), Start(plan, events[order[0]].date), order);
      && (CreatedRepo(events, plan, order).Err? <==> s.Err?)
      && (s.Err? ==> CreatedRepo(events, plan, order).error == s.error)
  {
  }

  lemma RoutedToMainInOrder(events: seq<Event>, route: map<int, BranchEntry>, order: seq<nat>)
    requires StableSort.IsStableOrder(Dates(events), order)
    ensures (exists i :: i in order && RoutedToMain(route, i)) <==> (exists i :: 0 <= i < |events| && RoutedToMain(route, i))
  {
    if i :| i in order && RoutedToMain(route, i) {
      var k :| 0 <= k < |order| && order[k] == i;
      assert 0 <= i < |events|;
    }
    if i :| 0 <= i < |events| && RoutedToMain(route, i) {
      assert i in order;
    }
  }

  // ------------------------------------------------------- commit counts

  /** A step adds one commit for its event, plus one when it merges. */
  lemma StepCounts(events: seq<Event>, route: map<int, BranchEntry>, b: BuildState, idx: nat)
    requires idx < |events| && Wf(b, route) && Bounded(b) && Step(events, route, b, idx).Ok?
    ensures var r := Step(events, route, b, idx).value;
      |r.git.commits| + |b.mergeCommits| == |b.git.commits| + 1 + |r.mergeCommits|
  {
    var r := Step(events, route, b, idx).value;
    var c := |b.git.commits|;
    StepMerge(events, route, b, idx);
    if |r.git.commits| == c + 2 {
      StepMergeCommit(events, route, b, idx);
      assert c + 1 !in b.mergeCommits;
    }
  }

  /** Each step adds one commit for its event, plus one when it merges. */
  lemma {:induction false} RunCounts(events: seq<Event>, route: map<int, BranchEntry>, b: BuildState, order: seq<nat>)
    requires Indexes(events, order) && Wf(b, route) && Bounded(b)
    requires Run(events, route, b, order).Ok?
    ensures var r := Run(events, route, b, order).value;
      |r.git.commits| + |b.mergeCommits| == |b.git.commits| + |order| + |r.mergeCommits|
  {
    if order != [] {
      var prev := order[..|order| - 1];
      RunCounts(events, route, b, prev);
      RunBounded(events, route, b, prev);
      StepCounts(events, route, Run(events, route, b, prev).value, order[|order| - 1]);
    }
  }

  /** The repository holds the initial commit, one commit per event, and one per merge performed. */
  lemma CreatedRepoCommitCount(events: seq<Event>, plan: seq<BranchEntry>, order: seq<nat>)
    requires StableSort.IsStableOrder(Dates(events), order)
    requires CreatedRepo(events, plan, order).Ok?
    ensures var r := CreatedRepo(events, plan, order).value;
      |r.git.commits| == |events| + 1 + |r.mergeCommits|
  {
    RunCounts(events, Route(plan), Start(plan, events[order[0]].date), order);
  }

  // ------------------------------------------------------- event commits

  /** The commit recorded for event `i` carries its message and date, has one parent, and is mapped to the event's branch. */
  ghost predicate EventCommit(events: seq<Event>, route: map<int, BranchEntry>, b: BuildState, i: nat)
    requires i in b.commitOf && i < |events|
  {
    var c := b.commitOf[i];
    && c < |b.git.commits|
    && b.git.commits[c].message == events[i].commitMessage
    && b.git.commits[c].date == events[i].date
    && |b.git.commits[c].parents| == 1
    && c in b.branchMap && b.branchMap[c] == BranchOf(route, i)
    && (c in b.keywordMap <==> events[i].keyword != "")
    && (c in b.keywordMap ==> b.keywordMap[c] == events[i].keyword)
    && c !in b.mergeCommits
  }

  /** What the run has recorded so far: one commit per processed event, all distinct, none a merge. */
  ghost predicate EventsRecorded(events: seq<Event>, route: map<int, BranchEntry>, b: BuildState, order: seq<nat>)
    requires Indexes(events, order)
  {
    && (forall i :: i in b.commitOf <==> i in order)
    && (forall i :: i in b.commitOf ==> i < |events| && EventCommit(events, route, b, i))
    && (forall i, j :: i in b.commitOf && j in b.commitOf && i != j ==> b.commitOf[i] != b.commitOf[j])
  }

  /** Events processed later have later commits. */
  ghost predicate RecordedInOrder(b: BuildState, order: seq<nat>) {
    forall p, q :: 0 <= p < q < |order| && order[p] in b.commitOf && order[q] in b.commitOf ==>
      b.commitOf[order[p]] < b.commitOf[order[q]]
  }

  /**
   * `r` grows `b`: the commits of `b` are a prefix of those of `r`, and the
   * branch, merge and keyword maps say the same as before about `b`'s commits.
   */
  ghost predicate Extends(b: BuildState, r: BuildState) {
    && b.git.commits <= r.git.commits
    && (forall c :: c in b.branchMap ==> c in r.branchMap && r.branchMap[c] == b.branchMap[c])
    && (forall c: nat :: c < |b.git.commits| ==> (c in r.mergeCommits <==> c in b.mergeCommits))
    && (forall c :: c in b.mergeCommits ==> c in r.mergeCommits && r.mergeCommits[c] == b.mergeCommits[c])
    && (forall c: nat :: c < |b.git.commits| ==> (c in r.keywordMap <==> c in b.keywordMap))
    && (forall c :: c in b.keywordMap ==> c in r.keywordMap && r.keywordMap[c] == b.keywordMap[c])
  }

  lemma ExtendsTrans(a: BuildState, b: BuildState, c: BuildState)
    requires Extends(a, b) && Extends(b, c)
    ensures Extends(a, c)
  {
  }

  lemma OnMainExtends(ev: Event, route: map<int, BranchEntry>, b: BuildState, idx: nat)
    requires Wf(b, route) && Bounded(b)
    ensures Extends(b, OnMain(ev, route, b, idx))
  {
  }

  lemma OnBranchExtends(ev: Event, route: map<int, BranchEntry>, b: BuildState, idx: nat, name: string, g: Git)
    requires Wf(b, route) && Bounded(b) && name != Main && name in b.remaining
    requires Valid(g) && g.commits == b.git.commits && g.head == name && g.refs.Keys == {Main} + b.created + {name}
    ensures Extends(b, OnBranch(ev, route, b, idx, name, g))
  {
  }

  lemma MergeBackExtends(route: map<int, BranchEntry>, b: BuildState, e: BranchEntry, date: int)
    requires Wf(b, route) && Bounded(b) && e.name in b.git.refs
    ensures Extends(b, MergeBack(route, b, e, date))
  {
  }

  /** A step only adds commits and metadata about them. */
  lemma StepExtends(events: seq<Event>, route: map<int, BranchEntry>, b: BuildState, idx: nat)
    requires idx < |events| && Wf(b, route) && Bounded(b) && Step(events, route, b, idx).Ok?
    ensures Extends(b, Step(events, route, b, idx).value)
  {
    if idx in route {
      var e := route[idx];
      var g := SwitchTo(b, e.name).value;
      var b1 := OnBranch(events[idx], route, b, idx, e.name, g);
      OnBranchExtends(events[idx], route, b, idx, e.name, g);
      if b1.remaining[e.name] == {} && ShouldMerge(e) {
        OnBranchBounded(events[idx], route, b, idx, e.name, g);
        MergeBackExtends(route, b1, e, events[idx].date);
        ExtendsTrans(b, b1, MergeBack(route, b1, e, events[idx].date));
      }
    } else {
      OnMainExtends(events[idx], route, b, idx);
    }
  }

  /** A run only adds commits and metadata about them. */
  lemma {:induction false} RunExtends(events: seq<Event>, route: map<int, BranchEntry>, b: BuildState, order: seq<nat>)
    requires Indexes(events, order) && Wf(b, route) && Bounded(b) && Run(events, route, b, order).Ok?
    ensures Extends(b, Run(events, route, b, order).value)
  {
    if order != [] {
      var prev := order[..|order| - 1];
      RunExtends(events, route, b, prev);
      RunBounded(events, route, b, prev);
      var b1 := Run(events, route, b, prev).value;
      StepExtends(events, route, b1, order[|order| - 1]);
      ExtendsTrans(b, b1, Run(events, route, b, order).value);
    }
  }

  /** An event's record survives any extension that keeps its commit id. */
  lemma ExtendsKeepsEvent(events: seq<Event>, route: map<int, BranchEntry>, b: BuildState, r: BuildState, i: nat)
    requires Wf(b, route) && Extends(b, r)
    requires i < |events| && i in b.commitOf && EventCommit(events, route, b, i)
    requires i in r.commitOf && r.commitOf[i] == b.commitOf[i]
    ensures EventCommit(events, route, r, i)
  {
    var c := b.commitOf[i];
    assert r.git.commits[c] == b.git.commits[c];
  }

  /** A step leaves earlier commits and their records alone. */
  lemma StepKeeps(events: seq<Event>, route: map<int, BranchEntry>, b: BuildState, idx: nat, i: nat)
    requires idx < |events| && Wf(b, route) && Bounded(b) && Step(events, route, b, idx).Ok?
    requires i in b.commitOf && i != idx && i < |events| && EventCommit(events, route, b, i)
    ensures var r := Step(events, route, b, idx).value;
      i in r.commitOf && r.commitOf[i] == b.commitOf[i] && EventCommit(events, route, r, i)
  {
    StepExtends(events, route, b, idx);
    ExtendsKeepsEvent(events, route, b, Step(events, route, b, idx).value, i);
  }

  lemma OnMainRecords(events: seq<Event>, route: map<int, BranchEntry>, b: BuildState, idx: nat)
    requires idx < |events| && Wf(b, route) && Bounded(b) && idx !in route
    ensures var r := OnMain(events[idx], route, b, idx);
      r.commitOf == b.commitOf[idx := |b.git.commits|] && EventCommit(events, route, r, idx)
  {
    assert |b.git.commits| !in b.mergeCommits;
  }

  lemma OnBranchRecords(events: seq<Event>, route: map<int, BranchEntry>, b: BuildState, idx: nat, g: Git)
    requires idx < |events| && Wf(b, route) && Bounded(b) && idx in route
    requires route[idx].name != Main && route[idx].name in b.remaining
    requires Valid(g) && g.commits == b.git.commits && g.head == route[idx].name
    requires g.refs.Keys == {Main} + b.created + {route[idx].name}
    ensures var r := OnBranch(events[idx], route, b, idx, route[idx].name, g);
      r.commitOf == b.commitOf[idx := |b.git.commits|] && EventCommit(events, route, r, idx)
  {
    assert |b.git.commits| !in b.mergeCommits;
  }

  /** The step's own event gets its commit, a fresh one. */
  lemma StepRecords(events: seq<Event>, route: map<int, BranchEntry>, b: BuildState, idx: nat)
    requires idx < |events| && Wf(b, route) && Bounded(b) && Step(events, route, b, idx).Ok?
    ensures var r := Step(events, route, b, idx).value;
      && r.commitOf == b.commitOf[idx := |b.git.commits|]
      && EventCommit(events, route, r, idx)
  {
    if idx in route {
      var e := route[idx];
      var g := SwitchTo(b, e.name).value;
      var b1 := OnBranch(events[idx], route, b, idx, e.name, g);
      OnBranchRecords(events, route, b, idx, g);
      if b1.remaining[e.name] == {} && ShouldMerge(e) {
        OnBranchBounded(events[idx], route, b, idx, e.name, g);
        MergeBackExtends(route, b1, e, events[idx].date);
        ExtendsKeepsEvent(events, route, b1, MergeBack(route, b1, e, events[idx].date), idx);
      }
    } else {
      OnMainRecords(events, route, b, idx);
    }
  }

  /** Every processed event has exactly one commit of its own, with its message, date, branch and keyword. */
  lemma {:induction false} RunRecordsEvents(events: seq<Event>, route: map<int, BranchEntry>, b: BuildState, order: seq<nat>)
    requires Indexes(events, order) && Wf(b, route) && Bounded(b) && b.commitOf == map[]
    requires NoDup(order)
    requires Run(events, route, b, order).Ok?
    ensures EventsRecorded(events, route, Run(events, route, b, order).value, order)
  {
    if order != [] {
      var n := |order| - 1;
      var prev := order[..n];
      var idx := order[n];
      NoDupSnoc(order);
      RunRecordsEvents(events, route, b, prev);
      RunBounded(events, route, b, prev);
      var b1 := Run(events, route, b, prev).value;
      var r := Step(events, route, b1, idx).value;
      StepRecords(events, route, b1, idx);
      forall i | i in b1.commitOf ensures i in r.commitOf && r.commitOf[i] == b1.commitOf[i] && EventCommit(events, route, r, i) {
        StepKeeps(events, route, b1, idx, i);
      }
      SnocMembers(order);
      RecordOne(events, route, b1, r, prev, order);
    }
  }

  /** Recording the commit of one more event keeps the records complete and the commits distinct. */
  lemma RecordOne(events: seq<Event>, route: map<int, BranchEntry>, b: BuildState, r: BuildState, prev: seq<nat>, order: seq<nat>)
    requires Indexes(events, order) && Indexes(events, prev) && order != [] && prev == order[..|order| - 1]
    requires forall i :: i in order <==> i in prev || i == order[|order| - 1]
    requires order[|order| - 1] !in prev
    requires EventsRecorded(events, route, b, prev)
    requires forall i :: i in b.commitOf ==> b.commitOf[i] < |b.git.commits|
    requires r.commitOf == b.commitOf[order[|order| - 1] := |b.git.commits|]
    requires EventCommit(events, route, r, order[|order| - 1])
    requires forall i :: i in b.commitOf ==> EventCommit(events, route, r, i)
    ensures EventsRecorded(events, route, r, order)
  {
  }

  /** A run commits its events in its order. */
  lemma {:induction false} RunInOrder(events: seq<Event>, route: map<int, BranchEntry>, b: BuildState, order: seq<nat>)
    requires Indexes(events, order) && Wf(b, route) && Bounded(b) && b.commitOf == map[]
    requires NoDup(order)
    requires Run(events, route, b, order).Ok?
    ensures RecordedInOrder(Run(events, route, b, order).value, order)
  {
    if order != [] {
      var n := |order| - 1;
      var prev := order[..n];
      var idx := order[n];
      NoDupSnoc(order);
      RunInOrder(events, route, b, prev);
      RunRecordsEvents(events, route, b, prev);
      RunBounded(events, route, b, prev);
      var b1 := Run(events, route, b, prev).value;
      StepRecords(events, route, b1, idx);
      InOrderOne(b1, Step(events, route, b1, idx).value, prev, order);
    }
  }

  lemma InOrderOne(b: BuildState, r: BuildState, prev: seq<nat>, order: seq<nat>)
    requires order != [] && prev == order[..|order| - 1] && order[|order| - 1] !in prev
    requires RecordedInOrder(b, prev)
    requires forall i :: i in b.commitOf ==> b.commitOf[i] < |b.git.commits|
    requires forall i :: i in b.commitOf <==> i in prev
    requires r.commitOf == b.commitOf[order[|order| - 1] := |b.git.commits|]
    ensures RecordedInOrder(r, order)
  {
    var n := |order| - 1;
    forall p, q | 0 <= p < q < |order| && order[p] in r.commitOf && order[q] in r.commitOf
      ensures r.commitOf[order[p]] < r.commitOf[order[q]]
    {
      assert order[p] == prev[p];
      if q < n {
        assert order[q] == prev[q];
      }
    }
  }

  /**
   * Every event becomes exactly one commit of its own: it carries the event's
   * message and date, is mapped to the branch the plan routes the event to (or
   * `main`), has a keyword entry exactly when the event's keyword is not empty,
   * and is not a merge; different events get different commits.
   */
  lemma CreatedRepoEventCommits(events: seq<Event>, plan: seq<BranchEntry>, order: seq<nat>)
    requires StableSort.IsStableOrder(Dates(events), order)
    requires CreatedRepo(events, plan, order).Ok?
    ensures var r := CreatedRepo(events, plan, order).value;
      && (forall i :: i in r.commitOf <==> 0 <= i < |events|)
      && (forall i :: 0 <= i < |events| ==> EventCommit(events, Route(plan), r, i))
      && (forall i, j :: 0 <= i < |events| && 0 <= j < |events| && i != j ==> r.commitOf[i] != r.commitOf[j])
  {
    CreatedRecords(events, plan, order);
    assert forall i :: i in order <==> 0 <= i < |events|;
  }

  /** The records of the built repository cover the events of the order. */
  lemma CreatedRecords(events: seq<Event>, plan: seq<BranchEntry>, order: seq<nat>)
    requires StableSort.IsStableOrder(Dates(events), order)
    requires CreatedRepo(events, plan, order).Ok?
    ensures Indexes(events, order) && EventsRecorded(events, Route(plan), CreatedRepo(events, plan, order).value, order)
  {
    var route := Route(plan);
    var s0 := Start(plan, events[order[0]].date);
    StableOrderNoDup(Dates(events), order);
    RunRecordsEvents(events, route, s0, order);
    var b := Run(events, route, s0, order).value;
    assert CreatedRepo(events, plan, order).value == b.(git := WithCheckout(b.git, Main));
    CheckoutKeepsRecords(events, route, b, order);
  }

  /** Checking out `main` at the end changes no commit and no record. */
  lemma CheckoutKeepsRecords(events: seq<Event>, route: map<int, BranchEntry>, b: BuildState, order: seq<nat>)
    requires Indexes(events, order) && EventsRecorded(events, route, b, order) && Main in b.git.refs
    ensures EventsRecorded(events, route, b.(git := WithCheckout(b.git, Main)), order)
  {
    var r := b.(git := WithCheckout(b.git, Main));
    forall i | i in r.commitOf ensures i < |events| && EventCommit(events, route, r, i) {
      assert EventCommit(events, route, b, i);
    }
  }

  /** A stable order lists each position once. */
  lemma StableOrderNoDup(keys: seq<real>, order: seq<nat>)
    requires StableSort.IsStableOrder(keys, order)
    ensures NoDup(order)
  {
    forall a, b | 0 <= a < b < |order| ensures order[a] != order[b] {
      assert StableSort.Before(keys, order[a], order[b]);
    }
  }

  // ------------------------------------------------------------ merges

  /** What a step does to the owed sets: only the event's own branch loses the event. */
  lemma StepOwes(events: seq<Event>, route: map<int, BranchEntry>, b: BuildState, idx: nat)
    requires idx < |events| && Wf(b, route) && Step(events, route, b, idx).Ok?
    ensures var r := Step(events, route, b, idx).value;
      && r.remaining.Keys == b.remaining.Keys
      && forall n :: n in b.remaining ==>
        r.remaining[n] == if idx in route && route[idx].name == n then b.remaining[n] - {idx} else b.remaining[n]
  {
    var r := Step(events, route, b, idx).value;
    if idx in route {
      var e := route[idx];
      var b1 := OnBranch(events[idx], route, b, idx, e.name, SwitchTo(b, e.name).value);
      assert r.remaining == b1.remaining == b.remaining[e.name := b.remaining[e.name] - {idx}];
    } else {
      assert r.remaining == b.remaining;
    }
  }

  /**
   * A step merges exactly when its event is routed, the event was the last one
   * its branch owed, and the entry merges; the merge commit follows the event's
   * commit, joins `main`'s tip with it under the entry's merge message at the
   * event's date, and is recorded on `main` as a merge of that branch.
   */
  lemma StepMerge(events: seq<Event>, route: map<int, BranchEntry>, b: BuildState, idx: nat)
    requires idx < |events| && Wf(b, route) && Step(events, route, b, idx).Ok?
    ensures var r := Step(events, route, b, idx).value;
      var c := |b.git.commits|;
      && (|r.git.commits| == c + 1 || |r.git.commits| == c + 2)
      && (|r.git.commits| == c + 2 <==>
            idx in route && b.remaining[route[idx].name] - {idx} == {} && ShouldMerge(route[idx]))
      && (|r.git.commits| == c + 1 ==> r.mergeCommits == b.mergeCommits)
  {
  }

  /** The merge commit a step makes. */
  lemma StepMergeCommit(events: seq<Event>, route: map<int, BranchEntry>, b: BuildState, idx: nat)
    requires idx < |events| && Wf(b, route) && Step(events, route, b, idx).Ok?
    requires idx in route && b.remaining[route[idx].name] - {idx} == {} && ShouldMerge(route[idx])
    ensures var r := Step(events, route, b, idx).value;
      var c := |b.git.commits|;
      && |r.git.commits| == c + 2
      && r.mergeCommits == b.mergeCommits[c + 1 := route[idx].name]
      && r.branchMap[c + 1] == Main
      && r.git.commits[c + 1] == Commit(MergeMessage(route[idx]), [b.git.refs[Main], c], events[idx].date)
  {
  }

  /**
   * The parent of the event's commit: the tip of the event's branch if that
   * branch exists already; otherwise (a new branch, forked from `main`, or an
   * event that stays on `main`) the tip of `main`.
   */
  lemma StepParent(events: seq<Event>, route: map<int, BranchEntry>, b: BuildState, idx: nat)
    requires idx < |events| && Wf(b, route) && Step(events, route, b, idx).Ok?
    ensures var r := Step(events, route, b, idx).value;
      var c := |b.git.commits|;
      && c < |r.git.commits|
      && r.git.commits[c].parents ==
        [if idx in route && route[idx].name in b.created then b.git.refs[route[idx].name] else b.git.refs[Main]]
  {
  }

  /**
   * Merge commit `m` is a commit on `main` with two parents, made under the
   * merge message of an entry for its branch that merges, and that branch owes
   * nothing any more.
   */
  ghost predicate MergeDone(route: map<int, BranchEntry>, b: BuildState, m: nat)
    requires m in b.mergeCommits
  {
    var name := b.mergeCommits[m];
    && m < |b.git.commits|
    && m in b.branchMap && b.branchMap[m] == Main
    && |b.git.commits[m].parents| == 2
    && name in b.remaining && b.remaining[name] == {}
    && exists i :: i in route && route[i].name == name && ShouldMerge(route[i]) && b.git.commits[m].message == MergeMessage(route[i])
  }

  lemma {:induction false} RunMerges(events: seq<Event>, route: map<int, BranchEntry>, b: BuildState, order: seq<nat>)
    requires Indexes(events, order) && Wf(b, route) && Bounded(b) && b.mergeCommits == map[]
    requires Run(events, route, b, order).Ok?
    ensures var r := Run(events, route, b, order).value;
      forall m :: m in r.mergeCommits ==> MergeDone(route, r, m)
  {
    if order != [] {
      var prev := order[..|order| - 1];
      var idx := order[|order| - 1];
      RunMerges(events, route, b, prev);
      RunBounded(events, route, b, prev);
      var b1 := Run(events, route, b, prev).value;
      StepMergesDone(events, route, b1, idx);
    }
  }

  lemma StepMergesDone(events: seq<Event>, route: map<int, BranchEntry>, b: BuildState, idx: nat)
    requires idx < |events| && Wf(b, route) && Bounded(b) && Step(events, route, b, idx).Ok?
    requires forall m :: m in b.mergeCommits ==> MergeDone(route, b, m)
    ensures var r := Step(events, route, b, idx).value;
      forall m :: m in r.mergeCommits ==> MergeDone(route, r, m)
  {
    var r := Step(events, route, b, idx).value;
    StepOldMerges(events, route, b, idx);
    StepMerge(events, route, b, idx);
    if |r.git.commits| == |b.git.commits| + 2 {
      StepNewMerge(events, route, b, idx);
    }
  }

  /** The merge commit a step makes is one `MergeDone` describes, and the only new entry of the merge map. */
  lemma StepNewMerge(events: seq<Event>, route: map<int, BranchEntry>, b: BuildState, idx: nat)
    requires idx < |events| && Wf(b, route) && Step(events, route, b, idx).Ok?
    requires idx in route && b.remaining[route[idx].name] - {idx} == {} && ShouldMerge(route[idx])
    ensures var r := Step(events, route, b, idx).value;
      var m := |b.git.commits| + 1;
      && r.mergeCommits == b.mergeCommits[m := route[idx].name]
      && MergeDone(route, r, m)
  {
    var r := Step(events, route, b, idx).value;
    StepMergeCommit(events, route, b, idx);
    StepOwes(events, route, b, idx);
    NewMergeDone(route, b, r, idx, |b.git.commits| + 1);
  }

  lemma StepOldMerges(events: seq<Event>, route: map<int, BranchEntry>, b: BuildState, idx: nat)
    requires idx < |events| && Wf(b, route) && Bounded(b) && Step(events, route, b, idx).Ok?
    requires forall m :: m in b.mergeCommits ==> MergeDone(route, b, m)
    ensures var r := Step(events, route, b, idx).value;
      forall m :: m in b.mergeCommits ==> m in r.mergeCommits && MergeDone(route, r, m)
  {
    var r := Step(events, route, b, idx).value;
    StepExtends(events, route, b, idx);
    StepOwes(events, route, b, idx);
    forall m | m in b.mergeCommits ensures m in r.mergeCommits && MergeDone(route, r, m) {
      MergeKept(route, b, r, m);
    }
  }

  lemma NewMergeDone(route: map<int, BranchEntry>, b: BuildState, r: BuildState, idx: nat, m: nat)
    requires idx in route
    requires r.remaining.Keys == b.remaining.Keys && route[idx].name in b.remaining
    requires r.remaining[route[idx].name] == b.remaining[route[idx].name] - {idx} == {}
    requires ShouldMerge(route[idx])
    requires m == |b.git.commits| + 1 && |r.git.commits| == m + 1
    requires r.mergeCommits == b.mergeCommits[m := route[idx].name]
    requires m in r.branchMap && r.branchMap[m] == Main
    requires |r.git.commits[m].parents| == 2 && r.git.commits[m].message == MergeMessage(route[idx])
    ensures MergeDone(route, r, m)
  {
  }

  /** An earlier merge stays done: its commit is kept and its branch's owed set stays empty. */
  lemma MergeKept(route: map<int, BranchEntry>, b: BuildState, r: BuildState, m: nat)
    requires m in b.mergeCommits && MergeDone(route, b, m) && Extends(b, r)
    requires r.remaining.Keys == b.remaining.Keys
    requires forall n :: n in b.remaining ==> r.remaining[n] <= b.remaining[n]
    ensures m in r.mergeCommits && MergeDone(route, r, m)
  {
    var i :| i in route && route[i].name == b.mergeCommits[m] && ShouldMerge(route[i]) && b.git.commits[m].message == MergeMessage(route[i]);
    assert r.git.commits[m] == b.git.commits[m];
  }

  /**
   * Every merge commit of the build is on `main`, has two parents, carries the
   * merge message of a merging entry of its branch, and that branch owes no
   * event any more.
   */
  lemma CreatedRepoMerges(events: seq<Event>, plan: seq<BranchEntry>, order: seq<nat>)
    requires StableSort.IsStableOrder(Dates(events), order)
    requires CreatedRepo(events, plan, order).Ok?
    ensures var r := CreatedRepo(events, plan, order).value;
      forall m :: m in r.mergeCommits ==> MergeDone(Route(plan), r, m)
  {
    var s0 := Start(plan, events[order[0]].date);
    RunMerges(events, Route(plan), s0, order);
    var b := Run(events, Route(plan), s0, order).value;
    var r := CreatedRepo(events, plan, order).value;
    forall m | m in r.mergeCommits ensures MergeDone(Route(plan), r, m) {
      assert MergeDone(Route(plan), b, m);
    }
  }

  /** Event `x` is among the processed events and is committed on branch `n`. */
  predicate CommittedOn(route: map<int, BranchEntry>, order: seq<nat>, x: int, n: string) {
    x in route && route[x].name == n && exists k :: 0 <= k < |order| && order[k] == x
  }

  /** A step keeps an owed index owed, and merges no branch that still owes one, unless the step commits that index on that branch. */
  lemma StepOwed(events: seq<Event>, route: map<int, BranchEntry>, b: BuildState, idx: nat, n: string, x: int)
    requires idx < |events| && Wf(b, route) && Step(events, route, b, idx).Ok?
    requires n in b.remaining && x in b.remaining[n]
    requires forall m :: m in b.mergeCommits ==> b.mergeCommits[m] != n
    requires !(x == idx && x in route && route[x].name == n)
    ensures var r := Step(events, route, b, idx).value;
      && n in r.remaining && x in r.remaining[n]
      && forall m :: m in r.mergeCommits ==> r.mergeCommits[m] != n
  {
    var r := Step(events, route, b, idx).value;
    StepOwes(events, route, b, idx);
    StepMerge(events, route, b, idx);
    if |r.git.commits| == |b.git.commits| + 2 {
      StepMergeCommit(events, route, b, idx);
    }
  }

  lemma {:induction false} RunOwed(events: seq<Event>, route: map<int, BranchEntry>, b: BuildState, order: seq<nat>, n: string, x: int)
    requires Indexes(events, order) && Wf(b, route) && Run(events, route, b, order).Ok?
    requires n in b.remaining && x in b.remaining[n]
    requires forall m :: m in b.mergeCommits ==> b.mergeCommits[m] != n
    requires !CommittedOn(route, order, x, n)
    ensures var r := Run(events, route, b, order).value;
      && n in r.remaining && x in r.remaining[n]
      && forall m :: m in r.mergeCommits ==> r.mergeCommits[m] != n
  {
    if order != [] {
      var last := |order| - 1;
      var prev := order[..last];
      assert forall k :: 0 <= k < |prev| ==> prev[k] == order[k];
      RunOwed(events, route, b, prev, n, x);
      StepOwed(events, route, Run(events, route, b, prev).value, order[last], n, x);
    }
  }

  /** Some entry at or after `j` is the last one listing `x`. */
  lemma {:induction false} LastListingExists(plan: seq<BranchEntry>, j: int, x: int)
    requires 0 <= j < |plan| && x in plan[j].eventsOnBranch
    ensures exists k :: j <= k && LastListing(plan, k, x)
    decreases |plan| - j
  {
    if !LastListing(plan, j, x) {
      var k :| j < k < |plan| && x in plan[k].eventsOnBranch;
      LastListingExists(plan, k, x);
    }
  }

  /**
   * If a branch, in the last plan entry of its name, lists an index that no
   * event of the timeline commits on it, the branch is never merged and keeps
   * owing the index.
   */
  lemma OwedIndexBlocksMerge(events: seq<Event>, plan: seq<BranchEntry>, order: seq<nat>, j: int, x: int)
    requires StableSort.IsStableOrder(Dates(events), order)
    requires CreatedRepo(events, plan, order).Ok?
    requires LastNamed(plan, j) && x in plan[j].eventsOnBranch
    requires !CommittedOn(Route(plan), order, x, plan[j].name)
    ensures var r := CreatedRepo(events, plan, order).value;
      && plan[j].name in r.remaining && x in r.remaining[plan[j].name]
      && forall m :: m in r.mergeCommits ==> r.mergeCommits[m] != plan[j].name
  {
    RemainingLastWriter(plan, j);
    RunOwed(events, Route(plan), Start(plan, events[order[0]].date), order, plan[j].name, x);
  }

  /**
   * No plan validation: an index listed by an entry and again by a later entry
   * of another name is committed on the later branch, so the earlier branch
   * (the last entry of its name) keeps owing it and is never merged.
   */
  lemma DuplicateIndexBlocksMerge(events: seq<Event>, plan: seq<BranchEntry>, order: seq<nat>, j1: int, j2: int, x: int)
    requires StableSort.IsStableOrder(Dates(events), order)
    requires CreatedRepo(events, plan, order).Ok?
    requires LastNamed(plan, j1) && j1 < j2 < |plan|
    requires x in plan[j1].eventsOnBranch && x in plan[j2].eventsOnBranch
    ensures var r := CreatedRepo(events, plan, order).value;
      forall m :: m in r.mergeCommits ==> r.mergeCommits[m] != plan[j1].name
  {
    LastListingExists(plan, j2, x);
    var k :| j2 <= k && LastListing(plan, k, x);
    RouteLastWriter(plan, k, x);
    assert Route(plan)[x].name != plan[j1].name;
    OwedIndexBlocksMerge(events, plan, order, j1, x);
  }

  /** An index outside the event list, listed by the last entry of a name, keeps that branch from ever merging. */
  lemma UnknownIndexBlocksMerge(events: seq<Event>, plan: seq<BranchEntry>, order: seq<nat>, j: int, x: int)
    requires StableSort.IsStableOrder(Dates(events), order)
    requires CreatedRepo(events, plan, order).Ok?
    requires LastNamed(plan, j) && x in plan[j].eventsOnBranch && !(0 <= x < |events|)
    ensures var r := CreatedRepo(events, plan, order).value;
      forall m :: m in r.mergeCommits ==> r.mergeCommits[m] != plan[j].name
  {
    assert forall k :: 0 <= k < |order| ==> order[k] < |events|;
    OwedIndexBlocksMerge(events, plan, order, j, x);
  }

  // ------------------------------------------------------------- dates

  /** Commit dates never decrease along the commit sequence. */
  ghost predicate DatesSorted(g: Git) {
    forall c1, c2 :: 0 <= c1 < c2 < |g.commits| ==> g.commits[c1].date <= g.commits[c2].date
  }

  /** No commit is dated after `d`. */
  ghost predicate DatedUpTo(g: Git, d: int) {
    forall c :: 0 <= c < |g.commits| ==> g.commits[c].date <= d
  }

  /** Every commit a step adds, event commit or merge, carries the event's date. */
  lemma StepNewDates(events: seq<Event>, route: map<int, BranchEntry>, b: BuildState, idx: nat)
    requires idx < |events| && Wf(b, route) && Step(events, route, b, idx).Ok?
    ensures var r := Step(events, route, b, idx).value;
      && b.git.commits <= r.git.commits
      && forall c :: |b.git.commits| <= c < |r.git.commits| ==> r.git.commits[c].date == events[idx].date
  {
    StepGrows(events, route, b, idx);
    StepMerge(events, route, b, idx);
    var r := Step(events, route, b, idx).value;
    if |r.git.commits| == |b.git.commits| + 2 {
      StepMergeCommit(events, route, b, idx);
    }
  }

  /** A step only appends commits. */
  lemma StepGrows(events: seq<Event>, route: map<int, BranchEntry>, b: BuildState, idx: nat)
    requires idx < |events| && Wf(b, route) && Step(events, route, b, idx).Ok?
    ensures b.git.commits <= Step(events, route, b, idx).value.git.commits
  {
    if idx in route {
      var e := route[idx];
      var g := SwitchTo(b, e.name).value;
      var b1 := OnBranch(events[idx], route, b, idx, e.name, g);
      assert b.git.commits <= b1.git.commits;
    }
  }

  /** Appending commits dated `d` to a history dated in order up to `d` keeps it in order. */
  lemma DatesAppend(g: Git, r: Git, d: int)
    requires DatesSorted(g) && DatedUpTo(g, d) && g.commits <= r.commits
    requires forall c :: |g.commits| <= c < |r.commits| ==> r.commits[c].date == d
    ensures DatesSorted(r) && DatedUpTo(r, d)
  {
    forall c1, c2 | 0 <= c1 < c2 < |r.commits| ensures r.commits[c1].date <= r.commits[c2].date {
      if c1 < |g.commits| {
        assert r.commits[c1] == g.commits[c1];
        if c2 < |g.commits| {
          assert r.commits[c2] == g.commits[c2];
        }
      }
    }
    forall c | 0 <= c < |g.commits| ensures r.commits[c].date <= d {
      assert r.commits[c] == g.commits[c];
    }
  }

  /** Dates along `order` never decrease. */
  predicate DatesInOrder(events: seq<Event>, order: seq<nat>)
    requires Indexes(events, order)
  {
    forall p, q :: 0 <= p < q < |order| ==> events[order[p]].date <= events[order[q]].date
  }

  /** Committing events in date order, after commits dated no later than the first of them, keeps the history in date order. */
  lemma {:induction false} RunDates(events: seq<Event>, route: map<int, BranchEntry>, b: BuildState, order: seq<nat>)
    requires Indexes(events, order) && Wf(b, route) && Run(events, route, b, order).Ok?
    requires DatesInOrder(events, order) && DatesSorted(b.git)
    requires order != [] ==> DatedUpTo(b.git, events[order[0]].date)
    ensures var r := Run(events, route, b, order).value;
      && DatesSorted(r.git)
      && (order != [] ==> DatedUpTo(r.git, events[order[|order| - 1]].date))
  {
    if order != [] {
      var n := |order| - 1;
      var prev := order[..n];
      assert forall k :: 0 <= k < n ==> prev[k] == order[k];
      RunDates(events, route, b, prev);
      var b1 := Run(events, route, b, prev).value;
      assert DatedUpTo(b1.git, events[order[n]].date) by {
        if n > 0 {
          assert events[order[n - 1]].date <= events[order[n]].date;
        }
      }
      StepNewDates(events, route, b1, order[n]);
      DatesAppend(b1.git, Step(events, route, b1, order[n]).value.git, events[order[n]].date);
    }
  }

  /**
   * The history is in date order: the first commit is the initial commit on
   * `main`, without parents and dated at the earliest event; no commit is
   * dated before an earlier one; and the repository ends with `main` checked
   * out.
   */
  lemma CreatedRepoDates(events: seq<Event>, plan: seq<BranchEntry>, order: seq<nat>)
    requires StableSort.IsStableOrder(Dates(events), order)
    requires CreatedRepo(events, plan, order).Ok?
    ensures var r := CreatedRepo(events, plan, order).value;
      && |r.git.commits| > 0
      && r.git.commits[0] == Commit(InitMessage, [], events[order[0]].date)
      && (forall i :: 0 <= i < |events| ==> r.git.commits[0].date <= events[i].date)
      && 0 in r.branchMap && r.branchMap[0] == Main
      && DatesSorted(r.git)
      && r.git.head == Main
  {
    var route := Route(plan);
    var s0 := Start(plan, events[order[0]].date);
    assert DatesInOrder(events, order) by {
      forall p, q | 0 <= p < q < |order| ensures events[order[p]].date <= events[order[q]].date {
        assert StableSort.Before(Dates(events), order[p], order[q]);
      }
    }
    RunDates(events, route, s0, order);
    RunExtends(events, route, s0, order);
    forall i | 0 <= i < |events| ensures events[order[0]].date <= events[i].date {
      StableSort.FirstIsLeast(Dates(events), order, i);
    }
  }

  /** Stable date order: an event dated earlier, or dated the same and listed earlier, gets the earlier commit. */
  lemma CreatedRepoEventOrder(events: seq<Event>, plan: seq<BranchEntry>, order: seq<nat>, i: nat, j: nat)
    requires StableSort.IsStableOrder(Dates(events), order)
    requires CreatedRepo(events, plan, order).Ok?
    requires i < |events| && j < |events| && StableSort.Before(Dates(events), i, j)
    ensures var r := CreatedRepo(events, plan, order).value;
      i in r.commitOf && j in r.commitOf && r.commitOf[i] < r.commitOf[j]
  {
    var route := Route(plan);
    var s0 := Start(plan, events[order[0]].date);
    StableOrderNoDup(Dates(events), order);
    RunRecordsEvents(events, route, s0, order);
    RunInOrder(events, route, s0, order);
    var p, q := PositionsInOrder(Dates(events), order, i, j);
    assert order[p] in order && order[q] in order;
  }

  /** In a stable order, a position that sorts before another is listed before it. */
  lemma PositionsInOrder(keys: seq<real>, order: seq<nat>, i: nat, j: nat) returns (p: nat, q: nat)
    requires StableSort.IsStableOrder(keys, order)
    requires i < |keys| && j < |keys| && StableSort.Before(keys, i, j)
    ensures p < q < |order| && order[p] == i && order[q] == j
  {
    assert i in order && j in order;
    p :| 0 <= p < |order| && order[p] == i;
    q :| 0 <= q < |order| && order[q] == j;
    assert !StableSort.Before(keys, j, i);
  }

  // ------------------------------------------------------- branch order

  /** `branch_order` starts with `main`, lists no name twice, and lists exactly `main` and the created branches. */
  ghost predicate OrderOk(b: BuildState) {
    && |b.branchOrder| > 0 && b.branchOrder[0] == Main
    && NoDup(b.branchOrder)
    && forall n :: n in b.branchOrder <==> n == Main || n in b.created
  }

  /** A step opens the event's branch if it is new, appending it to the branch order; nothing else changes there. */
  lemma StepBranchOrder(events: seq<Event>, route: map<int, BranchEntry>, b: BuildState, idx: nat)
    requires idx < |events| && Wf(b, route) && Step(events, route, b, idx).Ok? && OrderOk(b)
    ensures var r := Step(events, route, b, idx).value;
      && OrderOk(r)
      && r.created == b.created + (if idx in route then {route[idx].name} else {})
      && r.branchOrder == b.branchOrder + (if idx in route && route[idx].name !in b.created then [route[idx].name] else [])
  {
    var r := Step(events, route, b, idx).value;
    if idx in route && route[idx].name !in b.created {
      StepOpensNew(events, route, b, idx);
      OrderOkAppend(b, r, route[idx].name);
    } else {
      StepOpensNone(events, route, b, idx);
    }
  }

  /** A step whose event is routed to a branch not yet created creates it and appends it to the branch order. */
  lemma StepOpensNew(events: seq<Event>, route: map<int, BranchEntry>, b: BuildState, idx: nat)
    requires idx < |events| && Wf(b, route) && Step(events, route, b, idx).Ok?
    requires idx in route && route[idx].name !in b.created && OrderOk(b)
    ensures var r := Step(events, route, b, idx).value;
      var name := route[idx].name;
      name != Main && r.created == b.created + {name} && r.branchOrder == b.branchOrder + [name]
  {
    assert route[idx].name !in b.branchOrder;
  }

  /** Any other step leaves the created branches and the branch order alone. */
  lemma StepOpensNone(events: seq<Event>, route: map<int, BranchEntry>, b: BuildState, idx: nat)
    requires idx < |events| && Wf(b, route) && Step(events, route, b, idx).Ok? && OrderOk(b)
    requires !(idx in route && route[idx].name !in b.created)
    ensures var r := Step(events, route, b, idx).value;
      r.created == b.created + (if idx in route then {route[idx].name} else {}) && r.branchOrder == b.branchOrder
  {
  }

  /** Opening a new branch other than `main` and appending it to the branch order keeps the order well formed. */
  lemma OrderOkAppend(b: BuildState, r: BuildState, name: string)
    requires OrderOk(b) && name != Main && name !in b.created
    requires r.created == b.created + {name} && r.branchOrder == b.branchOrder + [name]
    ensures OrderOk(r)
  {
    assert name !in b.branchOrder;
    forall p, q | 0 <= p < q < |r.branchOrder| ensures r.branchOrder[p] != r.branchOrder[q] {
      assert r.branchOrder[p] == b.branchOrder[p];
      if q < |b.branchOrder| {
        assert r.branchOrder[q] == b.branchOrder[q];
      }
    }
  }

  /** Branch `n` is opened by some event of `order`. */
  predicate Opened(route: map<int, BranchEntry>, order: seq<nat>, n: string) {
    exists k :: 0 <= k < |order| && order[k] in route && route[order[k]].name == n
  }

  lemma {:induction false} RunBranchOrder(events: seq<Event>, route: map<int, BranchEntry>, b: BuildState, order: seq<nat>)
    requires Indexes(events, order) && Wf(b, route) && Run(events, route, b, order).Ok?
    requires OrderOk(b) && b.created == {}
    ensures var r := Run(events, route, b, order).value;
      && OrderOk(r)
      && forall n :: n in r.created <==> Opened(route, order, n)
  {
    if order != [] {
      var n := |order| - 1;
      var prev := order[..n];
      RunBranchOrder(events, route, b, prev);
      var b1 := Run(events, route, b, prev).value;
      StepBranchOrder(events, route, b1, order[n]);
      OpenedSnoc(route, order);
    }
  }

  lemma OpenedSnoc(route: map<int, BranchEntry>, order: seq<nat>)
    requires order != []
    ensures var n := |order| - 1;
      forall x :: Opened(route, order, x) <==> Opened(route, order[..n], x) || (order[n] in route && route[order[n]].name == x)
  {
    var n := |order| - 1;
    forall x | Opened(route, order[..n], x) ensures Opened(route, order, x) {
      var k :| 0 <= k < n && order[..n][k] in route && route[order[..n][k]].name == x;
      assert order[k] == order[..n][k];
    }
    forall x | Opened(route, order, x) && !(order[n] in route && route[order[n]].name == x) ensures Opened(route, order[..n], x) {
      var k :| 0 <= k < |order| && order[k] in route && route[order[k]].name == x;
      assert order[..n][k] == order[k];
    }
  }

  /**
   * `branch_order` starts with `main`, lists no branch twice, and lists
   * exactly `main` and the branches some event was committed on.
   */
  lemma CreatedRepoBranchOrder(events: seq<Event>, plan: seq<BranchEntry>, order: seq<nat>)
    requires StableSort.IsStableOrder(Dates(events), order)
    requires CreatedRepo(events, plan, order).Ok?
    ensures var r := CreatedRepo(events, plan, order).value;
      && |r.branchOrder| > 0 && r.branchOrder[0] == Main
      && NoDup(r.branchOrder)
      && forall n :: n in r.branchOrder <==> n == Main || Opened(Route(plan), order, n)
  {
    RunBranchOrder(events, Route(plan), Start(plan, events[order[0]].date), order);
  }
}
