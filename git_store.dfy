/**
 * The git repository the builder writes into, as an abstract store: commits
 * numbered by creation (a commit's id is its position), each with a message,
 * its parents and a timestamp; a map from branch names to their tip commits;
 * and the checked-out branch. Hashing, the working tree, the index and the
 * files each commit adds are not modelled.
 */
module GitStore {
  import opened Wrappers

  /** The branch `git init` leaves checked out and the builder integrates into. */
  const Main := "main"

  datatype Commit = Commit(message: string, parents: seq<nat>, date: int)

  datatype Git = Git(commits: seq<Commit>, refs: map<string, nat>, head: string)

  /** Every ref and every parent names an existing commit, and parents are older than their children. */
  ghost predicate Valid(g: Git) {
    && (forall r :: r in g.refs ==> g.refs[r] < |g.commits|)
    && (forall c, k :: 0 <= c < |g.commits| && 0 <= k < |g.commits[c].parents| ==> g.commits[c].parents[k] < c)
  }

  /** A freshly initialised repository: no commits, `main` checked out but not yet born. */
  function Empty(): (r: Git)
    ensures Valid(r) && r.commits == [] && r.refs == map[] && r.head == Main
  {
    Git([], map[], Main)
  }

  /**
   * `index.commit(message)`: a new commit whose parent is the checked-out
   * branch's tip (none on an unborn branch), which becomes that branch's tip.
   */
  function WithCommit(g: Git, message: string, date: int): (r: Git)
    ensures Valid(g) ==> Valid(r)
    ensures r.commits == g.commits + [Commit(message, if g.head in g.refs then [g.refs[g.head]] else [], date)]
    ensures r.refs == g.refs[g.head := |g.commits|] && r.head == g.head
  {
    var parents := if g.head in g.refs then [g.refs[g.head]] else [];
    Git(g.commits + [Commit(message, parents, date)], g.refs[g.head := |g.commits|], g.head)
  }

  /** `git checkout <name>` of an existing branch. */
  function WithCheckout(g: Git, name: string): (r: Git)
    requires name in g.refs
    ensures Valid(g) ==> Valid(r)
    ensures r.commits == g.commits && r.refs == g.refs && r.head == name
  {
    g.(head := name)
  }

  /** `git checkout -b <name>`: a new branch at the current tip, checked out; fails when the name is taken. */
  function WithNewBranch(g: Git, name: string): (r: Option<Git>)
    requires g.head in g.refs
    ensures r.Some? <==> name !in g.refs
    ensures Valid(g) && r.Some? ==> Valid(r.value)
    ensures r.Some? ==> r.value.commits == g.commits && r.value.refs == g.refs[name := g.refs[g.head]] && r.value.head == name
  {
    if name in g.refs then None else Some(Git(g.commits, g.refs[name := g.refs[g.head]], name))
  }

  /**
   * `git merge --no-ff <name> -m <message>`: a merge commit on the checked-out
   * branch whose parents are its tip and the merged branch's tip.
   */
  function WithMerge(g: Git, name: string, message: string, date: int): (r: Git)
    requires g.head in g.refs && name in g.refs
    ensures Valid(g) ==> Valid(r)
    ensures r.commits == g.commits + [Commit(message, [g.refs[g.head], g.refs[name]], date)]
    ensures r.refs == g.refs[g.head := |g.commits|] && r.head == g.head
  {
    Git(g.commits + [Commit(message, [g.refs[g.head], g.refs[name]], date)], g.refs[g.head := |g.commits|], g.head)
  }

  /** The repository the builder drives, updated in place. */
  class Repo {
    var commits: seq<Commit>
    var refs: map<string, nat>
    var head: string

    function Value(): Git
      reads this
    {
      Git(commits, refs, head)
    }

    /** `Repo.init`. */
    constructor Init()
      ensures Value() == Empty()
    {
      commits := [];
      refs := map[];
      head := Main;
    }

    method CommitOnHead(message: string, date: int) returns (id: nat)
      modifies this
      ensures Value() == WithCommit(old(Value()), message, date)
      ensures id == |old(commits)|
    {
      id := |commits|;
      var parents := if head in refs then [refs[head]] else [];
      commits := commits + [Commit(message, parents, date)];
      refs := refs[head := id];
    }

    method Checkout(name: string)
      requires name in refs
      modifies this
      ensures Value() == WithCheckout(old(Value()), name)
    {
      head := name;
    }

    method CheckoutNew(name: string) returns (ok: bool)
      requires head in refs
      modifies this
      ensures ok <==> name !in old(refs)
      ensures ok ==> Value() == WithNewBranch(old(Value()), name).value
      ensures !ok ==> Value() == old(Value())
    {
      if name in refs {
        return false;
      }
      refs := refs[name := refs[head]];
      head := name;
      return true;
    }

    method Merge(name: string, message: string, date: int) returns (id: nat)
      requires head in refs && name in refs
      modifies this
      ensures Value() == WithMerge(old(Value()), name, message, date)
      ensures id == |old(commits)|
    {
      id := |commits|;
      commits := commits + [Commit(message, [refs[head], refs[name]], date)];
      refs := refs[head := id];
    }
  }
}
