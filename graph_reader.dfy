/**
 * Reading a generated life repository back for display (visualize.py): which
 * branch each commit belongs to, the graph data the page scripts draw, and the
 * Mermaid `gitGraph` text. The repository is given as its commits in
 * chronological order and the branch tips with the commits each reaches.
 */
module GraphReader {
  import opened Wrappers
  import opened Text
  import opened Lists
  import opened Keyword

  /** A commit as the reader sees it: full hash, raw message, parent hashes and its time written two ways. */
  datatype RepoCommit = RepoCommit(sha: string, message: string, parents: seq<string>, isoTime: string, day: string)

  /** A local branch and the hashes of every commit reachable from its tip. */
  datatype BranchTip = BranchTip(name: string, reachable: set<string>)

  /** The builder's `.branch_meta.json`. */
  datatype BranchMeta = BranchMeta(
    branchMap: map<string, string>,
    mergeCommits: map<string, string>,
    keywordMap: map<string, string>,
    branchOrder: seq<string>)

  /** One entry of the `commits` list handed to the page. */
  datatype GraphCommit = GraphCommit(
    hash: string, message: string, keyword: string, branch: string,
    isMerge: bool, parents: seq<string>, date: string)

  datatype GraphData = GraphData(commits: seq<GraphCommit>, branches: seq<string>, numCommits: nat, numBranches: nat)

  /** Git branch names are unique. */
  predicate NamesDistinct(branches: seq<BranchTip>) {
    forall i, j :: 0 <= i < j < |branches| ==> branches[i].name != branches[j].name
  }

  /** No branch reaches the commit. */
  predicate Unreached(sha: string, branches: seq<BranchTip>) {
    forall k :: 0 <= k < |branches| ==> sha !in branches[k].reachable
  }

  /**
   * Branch `k` reaches the commit with the smallest reachable set among the
   * first `upTo` branches, and no earlier branch reaching it ties.
   */
  predicate SmallestFirst(sha: string, branches: seq<BranchTip>, k: nat, upTo: nat)
    requires k < upTo <= |branches|
  {
    && sha in branches[k].reachable
    && (forall j :: 0 <= j < k && sha in branches[j].reachable ==> |branches[j].reachable| > |branches[k].reachable|)
    && (forall j :: k < j < upTo && sha in branches[j].reachable ==> |branches[j].reachable| >= |branches[k].reachable|)
  }

  /** `b` is the branch `_infer_commit_branch` assigns to the commit. */
  ghost predicate IsOwner(sha: string, branches: seq<BranchTip>, b: string) {
    || (Unreached(sha, branches) && b == "main")
    || (exists k {:trigger SmallestFirst(sha, branches, k, |branches|)} ::
          0 <= k < |branches| && SmallestFirst(sha, branches, k, |branches|) && branches[k].name == b)
  }

  /** The owner is unique: at most one branch is smallest-first. */
  lemma OwnerUnique(sha: string, branches: seq<BranchTip>, b1: string, b2: string)
    requires IsOwner(sha, branches, b1) && IsOwner(sha, branches, b2)
    ensures b1 == b2
  {
    if !Unreached(sha, branches) {
      var k1 :| 0 <= k1 < |branches| && SmallestFirst(sha, branches, k1, |branches|) && branches[k1].name == b1;
      var k2 :| 0 <= k2 < |branches| && SmallestFirst(sha, branches, k2, |branches|) && branches[k2].name == b2;
      assert sha in branches[k1].reachable && sha in branches[k2].reachable;
      assert k1 == k2;
    } else {
      assert forall k :: 0 <= k < |branches| ==> !SmallestFirst(sha, branches, k, |branches|);
    }
  }

  /** The inner loop of `_infer_commit_branch`: the smallest reaching branch, first on ties, else "main". */
  method BestBranch(sha: string, branches: seq<BranchTip>) returns (best: string)
    ensures IsOwner(sha, branches, best)
  {
    best := "main";
    var bestSize: Option<nat> := None;   // None stands for infinity
    ghost var bestIdx: int := -1;
    for k := 0 to |branches|
      invariant (bestIdx == -1) == bestSize.None?
      invariant bestIdx == -1 ==> best == "main" && forall j :: 0 <= j < k ==> sha !in branches[j].reachable
      invariant bestIdx != -1 ==>
        && 0 <= bestIdx < k
        && best == branches[bestIdx].name
        && bestSize == Some(|branches[bestIdx].reachable|)
        && SmallestFirst(sha, branches, bestIdx, k)
    {
      var b := branches[k];
      if sha in b.reachable && (bestSize.None? || |b.reachable| < bestSize.value) {
        best := b.name;
        bestSize := Some(|b.reachable|);
        bestIdx := k;
      }
    }
  }

  /** `_infer_commit_branch`: every commit mapped to its owner. */
  method InferCommitBranch(commits: seq<RepoCommit>, branches: seq<BranchTip>) returns (owner: map<string, string>)
    requires NamesDistinct(branches)
    ensures owner.Keys == set c | c in commits :: c.sha
    ensures forall c :: c in commits ==> IsOwner(c.sha, branches, owner[c.sha])
  {
    owner := map[];
    for i := 0 to |commits|
      invariant owner.Keys == set j | 0 <= j < i :: commits[j].sha
      invariant forall j :: 0 <= j < i ==> IsOwner(commits[j].sha, branches, owner[commits[j].sha])
    {
      var b := BestBranch(commits[i].sha, branches);
      owner := owner[commits[i].sha := b];
    }
    assert forall c :: c in commits ==> exists j :: 0 <= j < |commits| && commits[j] == c;
  }

  /** `branch_map.get(sha, "main")`. */
  function MetaBranch(meta: BranchMeta, sha: string): string {
    if sha in meta.branchMap then meta.branchMap[sha] else "main"
  }

  /** `keyword_map.get(sha, "")`. */
  function MetaKeyword(meta: BranchMeta, sha: string): string {
    if sha in meta.keywordMap then meta.keywordMap[sha] else ""
  }

  /** The branch the reader shows a commit on: from the metadata when present, else inferred. */
  ghost predicate BranchOfCommit(sha: string, meta: Option<BranchMeta>, branches: seq<BranchTip>, b: string) {
    match meta
    case Some(m) => b == MetaBranch(m, sha)
    case None => IsOwner(sha, branches, b)
  }

  /** The commit-to-branch map both readers start from. */
  method CommitBranches(commits: seq<RepoCommit>, meta: Option<BranchMeta>, branches: seq<BranchTip>)
    returns (cb: map<string, string>)
    requires NamesDistinct(branches)
    ensures forall c :: c in commits ==> c.sha in cb && BranchOfCommit(c.sha, meta, branches, cb[c.sha])
  {
    if meta.Some? {
      cb := map[];
      for i := 0 to |commits|
        invariant forall j :: 0 <= j < i ==> commits[j].sha in cb && cb[commits[j].sha] == MetaBranch(meta.value, commits[j].sha)
      {
        cb := cb[commits[i].sha := MetaBranch(meta.value, commits[i].sha)];
      }
      assert forall c :: c in commits ==> exists j :: 0 <= j < |commits| && commits[j] == c;
    } else {
      cb := InferCommitBranch(commits, branches);
    }
  }

  /** `s.split("\n")[0]`: everything before the first newline. */
  function FirstLine(s: string): (r: string)
    ensures r <= s
    ensures '\n' !in r
    ensures |r| < |s| ==> s[|r|] == '\n'
  {
    if s == [] || s[0] == '\n' then [] else [s[0]] + FirstLine(s[1..])
  }

  /** `[p.hexsha[:8] for p in parents]`. */
  function ShortHashes(shas: seq<string>): (r: seq<string>)
    ensures |r| == |shas|
    ensures forall i :: 0 <= i < |shas| ==> r[i] == Take(shas[i], 8)
  {
    seq(|shas|, i requires 0 <= i < |shas| => Take(shas[i], 8))
  }

  /** The branch of every graph commit, in order. */
  function BranchesOf(gcs: seq<GraphCommit>): (r: seq<string>)
    ensures |r| == |gcs|
    ensures forall i :: 0 <= i < |gcs| ==> r[i] == gcs[i].branch
  {
    seq(|gcs|, i requires 0 <= i < |gcs| => gcs[i].branch)
  }

  /** Some commit with this hash has more than one parent. */
  predicate HasMergeCommit(commits: seq<RepoCommit>, sha: string) {
    exists j :: 0 <= j < |commits| && commits[j].sha == sha && |commits[j].parents| > 1
  }

  /** How `extract_graph_data` shows commit `c` of `commits`. */
  ghost predicate Shown(c: RepoCommit, commits: seq<RepoCommit>, meta: Option<BranchMeta>, branches: seq<BranchTip>,
                        gc: GraphCommit) {
    && gc.hash == Take(c.sha, 8)
    && gc.message == FirstLine(Strip(c.message))
    && gc.parents == ShortHashes(c.parents)
    && gc.date == c.isoTime
    && (gc.isMerge <==> HasMergeCommit(commits, c.sha))
    && BranchOfCommit(c.sha, meta, branches, gc.branch)
    && gc.keyword == (if meta.Some? && MetaKeyword(meta.value, c.sha) != "" then MetaKeyword(meta.value, c.sha)
                      else KeywordOfMessage(gc.message))
  }

  /** The hashes of the commits with more than one parent. */
  method MergeShas(commits: seq<RepoCommit>) returns (mergeShas: set<string>)
    ensures forall s :: s in mergeShas <==> HasMergeCommit(commits, s)
  {
    mergeShas := {};
    for i := 0 to |commits|
      invariant forall s :: s in mergeShas <==> exists j :: 0 <= j < i && commits[j].sha == s && |commits[j].parents| > 1
    {
      if |commits[i].parents| > 1 {
        mergeShas := mergeShas + {commits[i].sha};
      }
    }
  }

  /** Without metadata: "main", then every other branch in order of first appearance. */
  method FallbackOrder(out: seq<GraphCommit>) returns (order: seq<string>)
    ensures order == AppendUnseen(["main"], BranchesOf(out))
  {
    order := ["main"];
    for i := 0 to |out|
      invariant order == AppendUnseen(["main"], BranchesOf(out)[..i])
    {
      assert BranchesOf(out)[..i + 1][..i] == BranchesOf(out)[..i];
      if out[i].branch !in order {
        order := order + [out[i].branch];
      }
    }
    assert BranchesOf(out)[..|out|] == BranchesOf(out);
  }

  /** The entry of one commit in the `commits` list. */
  method ShowCommit(c: RepoCommit, commits: seq<RepoCommit>, meta: Option<BranchMeta>, branches: seq<BranchTip>,
                    cb: map<string, string>, mergeShas: set<string>) returns (gc: GraphCommit)
    requires c.sha in cb && BranchOfCommit(c.sha, meta, branches, cb[c.sha])
    requires forall s :: s in mergeShas <==> HasMergeCommit(commits, s)
    ensures Shown(c, commits, meta, branches, gc)
  {
    var keywordMeta := if meta.Some? then meta.value.keywordMap else map[];
    var msg := FirstLine(Strip(c.message));
    var metaKeyword := if c.sha in keywordMeta then keywordMeta[c.sha] else "";
    var keyword := metaKeyword;
    if metaKeyword == "" {
      keyword := ExtractKeyword(msg);
    }
    gc := GraphCommit(Take(c.sha, 8), msg, keyword, cb[c.sha], c.sha in mergeShas, ShortHashes(c.parents), c.isoTime);
  }

  /** `extract_graph_data`. */
  method ExtractGraphData(commits: seq<RepoCommit>, meta: Option<BranchMeta>, branches: seq<BranchTip>)
    returns (g: GraphData)
    requires NamesDistinct(branches)
    ensures |g.commits| == |commits| && g.numCommits == |commits| && g.numBranches == |g.branches|
    ensures AllShown(commits, meta, branches, g.commits)
    ensures meta.Some? ==> g.branches == meta.value.branchOrder
    ensures meta.None? ==> g.branches == AppendUnseen(["main"], BranchesOf(g.commits))
  {
    var cb := CommitBranches(commits, meta, branches);
    var mergeShas := MergeShas(commits);
    var out: seq<GraphCommit> := [];
    for i := 0 to |commits|
      invariant |out| == i
      invariant AllShown(commits, meta, branches, out)
    {
      assert commits[i] in commits;
      var gc := ShowCommit(commits[i], commits, meta, branches, cb, mergeShas);
      ShownExtend(commits, meta, branches, out, gc);
      out := out + [gc];
    }
    var order: seq<string>;
    if meta.Some? {
      order := meta.value.branchOrder;
    } else {
      order := FallbackOrder(out);
    }
    g := GraphData(out, order, |out|, |order|);
  }

  /** The first `|out|` commits are shown as `out` shows them, one after another. */
  ghost predicate AllShown(commits: seq<RepoCommit>, meta: Option<BranchMeta>, branches: seq<BranchTip>, out: seq<GraphCommit>)
    requires |out| <= |commits|
    decreases |out|
  {
    out == [] ||
      (AllShown(commits, meta, branches, out[..|out| - 1]) && Shown(commits[|out| - 1], commits, meta, branches, out[|out| - 1]))
  }

  lemma ShownExtend(commits: seq<RepoCommit>, meta: Option<BranchMeta>, branches: seq<BranchTip>, out: seq<GraphCommit>, gc: GraphCommit)
    requires |out| < |commits| && AllShown(commits, meta, branches, out)
    requires Shown(commits[|out|], commits, meta, branches, gc)
    ensures AllShown(commits, meta, branches, out + [gc])
  {
    assert (out + [gc])[..|out|] == out;
  }

  /** Entry `k` of a shown prefix is how commit `k` is shown. */
  lemma {:induction false} AllShownAt(commits: seq<RepoCommit>, meta: Option<BranchMeta>, branches: seq<BranchTip>, out: seq<GraphCommit>, k: nat)
    requires |out| <= |commits| && AllShown(commits, meta, branches, out)
    requires k < |out|
    ensures Shown(commits[k], commits, meta, branches, out[k])
    decreases |out|
  {
    if k < |out| - 1 {
      AllShownAt(commits, meta, branches, out[..|out| - 1], k);
    }
  }

  /** With distinct hashes, a commit is flagged as a merge exactly when it has more than one parent. */
  lemma MergeFlagDistinct(commits: seq<RepoCommit>, i: nat)
    requires i < |commits|
    requires forall a, b :: 0 <= a < b < |commits| ==> commits[a].sha != commits[b].sha
    ensures HasMergeCommit(commits, commits[i].sha) <==> |commits[i].parents| > 1
  {
    if HasMergeCommit(commits, commits[i].sha) {
      var j :| 0 <= j < |commits| && commits[j].sha == commits[i].sha && |commits[j].parents| > 1;
      assert j == i;
    }
  }

  /**
   * Without metadata the branch list starts with "main", names every branch
   * shown exactly once, and lists them in order of first appearance.
   */
  lemma FallbackBranchOrder(bs: seq<string>)
    ensures var order := AppendUnseen(["main"], bs);
      && order[0] == "main"
      && NoDup(order)
      && (forall b :: b in bs ==> b in order)
      && (forall b :: b in order ==> b == "main" || b in bs)
      && (forall a, b, k :: 1 <= a < b < |order| && 0 <= k < |bs| && bs[k] == order[b] ==> order[a] in bs[..k])
  {
    var order := AppendUnseen(["main"], bs);
    assert ["main"] <= order;
    forall a, b, k | 1 <= a < b < |order| && 0 <= k < |bs| && bs[k] == order[b]
      ensures order[a] in bs[..k]
    {
      AppendUnseenFirstAppearance(["main"], bs, a, b, k);
    }
  }

  // ---------------------------------------------------------------- Mermaid

  /** The lines of a Mermaid `gitGraph`. */
  datatype MermaidLine =
    | Header
    | BranchLine(name: string)
    | CheckoutLine(name: string)
    | CommitLine(caption: string)
    | MergeLine(source: string, caption: string)
    | HighlightLine(caption: string)

  function Render(l: MermaidLine): string {
    match l
    case Header => "gitGraph LR:"
    case BranchLine(b) => "    branch \"" + b + "\""
    case CheckoutLine(b) => "    checkout \"" + b + "\""
    case CommitLine(caption) => "    commit id: \"" + caption + "\""
    case MergeLine(source, caption) => "    merge \"" + source + "\" id: \"" + caption + "\""
    case HighlightLine(caption) => "    commit id: \"" + caption + "\" type: HIGHLIGHT"
  }

  function RenderAll(ls: seq<MermaidLine>): (r: seq<string>)
    ensures |r| == |ls|
    ensures forall i :: 0 <= i < |ls| ==> r[i] == Render(ls[i])
  {
    seq(|ls|, i requires 0 <= i < |ls| => Render(ls[i]))
  }

  /** The lines one commit contributes: an optional branch switch, then its commit line. */
  datatype Step = Step(switch: Option<MermaidLine>, entry: MermaidLine)

  function StepLines(steps: seq<Step>): seq<MermaidLine> {
    if steps == [] then []
    else
      var last := steps[|steps| - 1];
      StepLines(steps[..|steps| - 1]) + (if last.switch.Some? then [last.switch.value] else []) + [last.entry]
  }

  /** How the caption shows one character of the stripped message. */
  function CaptionChar(c: char): char {
    if c == '"' then '\'' else if c == '\n' then ' ' else c
  }

  /** The message as the graph caption shows it: quotes made single, newlines made spaces, cut to 37 characters and `...` when over 40. */
  function MermaidMessage(message: string): (r: string)
    ensures |r| <= 40
    ensures '"' !in r && '\n' !in r
    ensures |Strip(message)| <= 40 ==> |r| == |Strip(message)|
    ensures |Strip(message)| > 40 ==> |r| == 40 && r[37..] == "..."
    ensures forall i :: 0 <= i < |r| && (i < 37 || |Strip(message)| <= 40) ==> r[i] == CaptionChar(Strip(message)[i])
  {
    var msg := ReplaceChar(ReplaceChar(Strip(message), '"', '\''), '\n', ' ');
    if |msg| > 40 then msg[..37] + "..." else msg
  }

  function Label(c: RepoCommit): string {
    c.day + " " + MermaidMessage(c.message)
  }

  /** `merge_meta.get(sha)` as a truthy string, or None. */
  function MergeSource(meta: Option<BranchMeta>, sha: string): Option<string> {
    if meta.Some? && sha in meta.value.mergeCommits && meta.value.mergeCommits[sha] != "" then
      Some(meta.value.mergeCommits[sha])
    else None
  }

  /** The commit line of a commit on branch `b`. */
  function CommitEntry(c: RepoCommit, b: string, meta: Option<BranchMeta>): (r: MermaidLine)
    ensures r.MergeLine? <==> |c.parents| > 1 && b == "main" && MergeSource(meta, c.sha).Some?
    ensures r.HighlightLine? <==> |c.parents| > 1 && !(b == "main" && MergeSource(meta, c.sha).Some?)
    ensures r.CommitLine? <==> |c.parents| <= 1
    ensures r.MergeLine? ==> r.source == MergeSource(meta, c.sha).value
    ensures !r.Header? && !r.BranchLine? && !r.CheckoutLine? && r.caption == c.day + " " + MermaidMessage(c.message)
  {
    if |c.parents| > 1 then
      if b == "main" && MergeSource(meta, c.sha).Some? then MergeLine(MergeSource(meta, c.sha).value, Label(c))
      else HighlightLine(Label(c))
    else CommitLine(Label(c))
  }

  /** The branches of the commits before position `i`, together with "main". */
  function SeenBefore(owners: seq<string>, i: nat): set<string>
    requires i <= |owners|
  {
    {"main"} + set j | 0 <= j < i :: owners[j]
  }

  /** The switch lines, given every commit's branch: none when staying, `branch` for a new branch, `checkout` for a seen one. */
  ghost predicate SwitchesFollowBranches(owners: seq<string>, steps: seq<Step>)
    requires |steps| == |owners|
  {
    forall i :: 0 <= i < |steps| ==> SwitchAt(owners, steps, i)
  }

  /** The switch line before the commit at position `i`. */
  ghost predicate SwitchAt(owners: seq<string>, steps: seq<Step>, i: nat)
    requires i < |owners| == |steps|
  {
    var step := steps[i];
    var b := owners[i];
    var active := if i == 0 then "main" else owners[i - 1];
    && (step.switch.None? <==> b == active)
    && (b != active && b !in SeenBefore(owners, i) ==> step.switch == Some(BranchLine(b)))
    && (b != active && b in SeenBefore(owners, i) ==> step.switch == Some(CheckoutLine(b)))
  }

  /** `repo_to_mermaid`: the header, then per commit an optional switch line and its commit line, joined by newlines. */
  method RepoToMermaid(commits: seq<RepoCommit>, meta: Option<BranchMeta>, branches: seq<BranchTip>)
    returns (text: string, ghost owners: seq<string>, ghost steps: seq<Step>)
    requires NamesDistinct(branches)
    ensures |owners| == |commits| && |steps| == |commits|
    ensures OwnersFollow(commits, meta, branches, owners)
    ensures SwitchesFollowBranches(owners, steps)
    ensures EntriesFollow(commits, owners, steps, meta)
    ensures text == Join(RenderAll([Header] + StepLines(steps)), "\n")
  {
    var cb := CommitBranches(commits, meta, branches);
    var lines := [Render(Header)];
    var active := "main";
    var seen := {"main"};
    owners, steps := [], [];
    for i := 0 to |commits|
      invariant |owners| == i && |steps| == i
      invariant OwnersFollow(commits, meta, branches, owners)
      invariant active == if i == 0 then "main" else owners[i - 1]
      invariant seen == SeenBefore(owners, i)
      invariant SwitchesFollowBranches(owners, steps)
      invariant EntriesFollow(commits, owners, steps, meta)
      invariant lines == RenderAll([Header] + StepLines(steps))
    {
      assert commits[i] in commits;
      lines, active, seen, owners, steps := MermaidAdvance(commits, meta, branches, commits[i], cb[commits[i].sha], lines, active, seen, owners, steps);
    }
    text := Join(lines, "\n");
  }

  /** One pass of the loop of `repo_to_mermaid`: the next commit's switch and commit lines, and the branch it leaves active. */
  method MermaidAdvance(commits: seq<RepoCommit>, meta: Option<BranchMeta>, branches: seq<BranchTip>, c: RepoCommit, branch: string,
                        lines0: seq<string>, active0: string, seen0: set<string>, ghost owners0: seq<string>, ghost steps0: seq<Step>)
    returns (lines: seq<string>, active: string, seen: set<string>, ghost owners: seq<string>, ghost steps: seq<Step>)
    requires |owners0| == |steps0| < |commits| && c == commits[|owners0|]
    requires BranchOfCommit(c.sha, meta, branches, branch)
    requires OwnersFollow(commits, meta, branches, owners0)
    requires active0 == if owners0 == [] then "main" else owners0[|owners0| - 1]
    requires seen0 == SeenBefore(owners0, |owners0|)
    requires SwitchesFollowBranches(owners0, steps0)
    requires EntriesFollow(commits, owners0, steps0, meta)
    requires lines0 == RenderAll([Header] + StepLines(steps0))
    ensures owners == owners0 + [branch] && |steps| == |steps0| + 1
    ensures OwnersFollow(commits, meta, branches, owners)
    ensures active == branch
    ensures seen == SeenBefore(owners, |owners|)
    ensures SwitchesFollowBranches(owners, steps)
    ensures EntriesFollow(commits, owners, steps, meta)
    ensures lines == RenderAll([Header] + StepLines(steps))
  {
    var step := MermaidStep(c, branch, active0, seen0, meta);
    MermaidLoopStep(commits, meta, branches, owners0, steps0, active0, seen0, branch, step);
    RenderSnoc(steps0, step);
    active, seen := active0, seen0;
    if branch != active {
      seen := seen + {branch};
      active := branch;
    }
    lines := lines0 + RenderAll(OwnLines(step));
    owners, steps := owners0 + [branch], steps0 + [step];
  }

  /** One pass of the loop of `repo_to_mermaid` keeps what the loop has built so far in step with the commits. */
  lemma MermaidLoopStep(commits: seq<RepoCommit>, meta: Option<BranchMeta>, branches: seq<BranchTip>,
                        owners: seq<string>, steps: seq<Step>, active: string, seen: set<string>, branch: string, step: Step)
    requires |owners| == |steps| < |commits|
    requires OwnersFollow(commits, meta, branches, owners)
    requires active == if owners == [] then "main" else owners[|owners| - 1]
    requires seen == SeenBefore(owners, |owners|)
    requires SwitchesFollowBranches(owners, steps)
    requires EntriesFollow(commits, owners, steps, meta)
    requires BranchOfCommit(commits[|owners|].sha, meta, branches, branch)
    requires step.entry == CommitEntry(commits[|owners|], branch, meta)
    requires step.switch.None? <==> branch == active
    requires branch != active && branch !in seen ==> step.switch == Some(BranchLine(branch))
    requires branch != active && branch in seen ==> step.switch == Some(CheckoutLine(branch))
    ensures OwnersFollow(commits, meta, branches, owners + [branch])
    ensures SwitchesFollowBranches(owners + [branch], steps + [step])
    ensures EntriesFollow(commits, owners + [branch], steps + [step], meta)
    ensures SeenBefore(owners + [branch], |owners| + 1) == seen + {branch}
    ensures branch == active ==> branch in seen
  {
    SeenBeforeSnoc(owners, branch);
    SwitchesExtend(owners, steps, branch, step);
    OwnersExtend(commits, meta, branches, owners, branch);
    EntriesExtend(commits, owners, steps, meta, branch, step);
    if owners != [] {
      assert owners[|owners| - 1] in SeenBefore(owners, |owners|);
    }
  }

  /** The lines of one commit: the switch, if any, then the commit line. */
  function OwnLines(step: Step): seq<MermaidLine> {
    (if step.switch.Some? then [step.switch.value] else []) + [step.entry]
  }

  /** One iteration of `repo_to_mermaid`: the switch line and the commit line of commit `c` on `branch`. */
  method MermaidStep(c: RepoCommit, branch: string, active: string, seen: set<string>, meta: Option<BranchMeta>)
    returns (step: Step)
    ensures step.entry == CommitEntry(c, branch, meta)
    ensures step.switch.None? <==> branch == active
    ensures branch != active && branch !in seen ==> step.switch == Some(BranchLine(branch))
    ensures branch != active && branch in seen ==> step.switch == Some(CheckoutLine(branch))
  {
    var caption := Label(c);
    var switch: Option<MermaidLine> := None;
    if branch != active {
      if branch !in seen {
        switch := Some(BranchLine(branch));
      } else {
        switch := Some(CheckoutLine(branch));
      }
    }
    var entry: MermaidLine;
    if |c.parents| > 1 {
      var merged := MergeSource(meta, c.sha);
      if branch == "main" && merged.Some? {
        entry := MergeLine(merged.value, caption);
      } else {
        entry := HighlightLine(caption);
      }
    } else {
      entry := CommitLine(caption);
    }
    step := Step(switch, entry);
  }

  lemma SeenBeforeSnoc(owners: seq<string>, b: string)
    ensures SeenBefore(owners + [b], |owners| + 1) == SeenBefore(owners, |owners|) + {b}
    ensures forall j :: 0 <= j <= |owners| ==> SeenBefore(owners + [b], j) == SeenBefore(owners, j)
  {
    var o := owners + [b];
    assert forall j :: 0 <= j < |owners| ==> o[j] == owners[j];
    forall j | 0 <= j <= |owners| ensures SeenBefore(o, j) == SeenBefore(owners, j) {
      assert forall x :: x in SeenBefore(o, j) ==> x in SeenBefore(owners, j);
    }
    assert forall x :: x in SeenBefore(o, |owners| + 1) ==> x in SeenBefore(owners, |owners|) + {b};
    assert o[|owners|] == b && b in SeenBefore(o, |owners| + 1);
    forall x | x in SeenBefore(owners, |owners|) ensures x in SeenBefore(o, |owners| + 1) {
      if x != "main" {
        var j :| 0 <= j < |owners| && owners[j] == x;
        assert o[j] == x;
      }
    }
  }

  lemma SwitchesExtend(owners: seq<string>, steps: seq<Step>, b: string, step: Step)
    requires |steps| == |owners| && SwitchesFollowBranches(owners, steps)
    requires SeenBefore(owners + [b], |owners|) == SeenBefore(owners, |owners|)
    requires forall j :: 0 <= j <= |owners| ==> SeenBefore(owners + [b], j) == SeenBefore(owners, j)
    requires var active := if |owners| == 0 then "main" else owners[|owners| - 1];
      && (step.switch.None? <==> b == active)
      && (b != active && b !in SeenBefore(owners, |owners|) ==> step.switch == Some(BranchLine(b)))
      && (b != active && b in SeenBefore(owners, |owners|) ==> step.switch == Some(CheckoutLine(b)))
    ensures SwitchesFollowBranches(owners + [b], steps + [step])
  {
    var o, st := owners + [b], steps + [step];
    forall i | 0 <= i < |st| ensures SwitchAt(o, st, i) {
      if i < |steps| {
        assert SwitchAt(owners, steps, i);
        assert st[i] == steps[i] && o[i] == owners[i];
        assert i > 0 ==> o[i - 1] == owners[i - 1];
      } else {
        assert st[i] == step && o[i] == b;
      }
    }
  }

  /** Every commit's branch, as the reader assigns it. */
  ghost predicate OwnersFollow(commits: seq<RepoCommit>, meta: Option<BranchMeta>, branches: seq<BranchTip>, owners: seq<string>)
    requires |owners| <= |commits|
  {
    forall j :: 0 <= j < |owners| ==> OwnerAt(commits, meta, branches, owners, j)
  }

  /** Commit `j` is on the branch the reader assigns it. */
  ghost predicate OwnerAt(commits: seq<RepoCommit>, meta: Option<BranchMeta>, branches: seq<BranchTip>, owners: seq<string>, j: nat)
    requires j < |owners| <= |commits|
  {
    BranchOfCommit(commits[j].sha, meta, branches, owners[j])
  }

  lemma OwnersExtend(commits: seq<RepoCommit>, meta: Option<BranchMeta>, branches: seq<BranchTip>, owners: seq<string>, b: string)
    requires |owners| < |commits| && OwnersFollow(commits, meta, branches, owners)
    requires BranchOfCommit(commits[|owners|].sha, meta, branches, b)
    ensures OwnersFollow(commits, meta, branches, owners + [b])
  {
    var o := owners + [b];
    forall j | 0 <= j < |o| ensures OwnerAt(commits, meta, branches, o, j) {
      if j < |owners| {
        assert o[j] == owners[j];
        assert OwnerAt(commits, meta, branches, owners, j);
      } else {
        assert o[j] == b;
      }
    }
  }

  /** Each commit line is the one `CommitEntry` gives for that commit on its branch, one after another. */
  ghost predicate EntriesFollow(commits: seq<RepoCommit>, owners: seq<string>, steps: seq<Step>, meta: Option<BranchMeta>)
    requires |owners| == |steps| <= |commits|
    decreases |steps|
  {
    steps == [] ||
      (&& EntriesFollow(commits, owners[..|owners| - 1], steps[..|steps| - 1], meta)
       && steps[|steps| - 1].entry == CommitEntry(commits[|steps| - 1], owners[|owners| - 1], meta))
  }

  lemma EntriesExtend(commits: seq<RepoCommit>, owners: seq<string>, steps: seq<Step>, meta: Option<BranchMeta>,
                      b: string, step: Step)
    requires |owners| == |steps| < |commits| && EntriesFollow(commits, owners, steps, meta)
    requires step.entry == CommitEntry(commits[|steps|], b, meta)
    ensures EntriesFollow(commits, owners + [b], steps + [step], meta)
  {
    assert (owners + [b])[..|owners|] == owners;
    assert (steps + [step])[..|steps|] == steps;
  }

  /** The commit line of commit `k` is the one for its branch. */
  lemma {:induction false} EntriesFollowAt(commits: seq<RepoCommit>, owners: seq<string>, steps: seq<Step>, meta: Option<BranchMeta>, k: nat)
    requires |owners| == |steps| <= |commits| && EntriesFollow(commits, owners, steps, meta)
    requires k < |steps|
    ensures steps[k].entry == CommitEntry(commits[k], owners[k], meta)
    decreases |steps|
  {
    if k < |steps| - 1 {
      EntriesFollowAt(commits, owners[..|owners| - 1], steps[..|steps| - 1], meta, k);
    }
  }

  lemma RenderSnoc(steps: seq<Step>, step: Step)
    ensures RenderAll([Header] + StepLines(steps + [step])) == RenderAll([Header] + StepLines(steps)) + RenderAll(OwnLines(step))
  {
    assert (steps + [step])[..|steps|] == steps;
    assert [Header] + StepLines(steps + [step]) == ([Header] + StepLines(steps)) + OwnLines(step);
  }

  /**
   * In the Mermaid text a `branch` line appears at most once per branch and
   * never for "main"; a `checkout` line only names "main" or a branch whose
   * `branch` line came earlier.
   */
  lemma BranchLinesOnce(owners: seq<string>, steps: seq<Step>)
    requires |steps| == |owners| && SwitchesFollowBranches(owners, steps)
    ensures forall i :: 0 <= i < |steps| ==> steps[i].switch != Some(BranchLine("main"))
    ensures forall i, j, b :: 0 <= i < j < |steps| && steps[i].switch == Some(BranchLine(b)) ==> steps[j].switch != Some(BranchLine(b))
    ensures forall j, b :: 0 <= j < |steps| && steps[j].switch == Some(CheckoutLine(b)) ==>
              b == "main" || exists i :: 0 <= i < j && steps[i].switch == Some(BranchLine(b))
  {
    forall i | 0 <= i < |steps| ensures steps[i].switch != Some(BranchLine("main")) {
      assert SwitchAt(owners, steps, i);
      assert "main" in SeenBefore(owners, i);
    }
    forall i, j, b | 0 <= i < j < |steps| && steps[i].switch == Some(BranchLine(b))
      ensures steps[j].switch != Some(BranchLine(b))
    {
      assert SwitchAt(owners, steps, i) && SwitchAt(owners, steps, j);
      assert owners[i] == b;
      assert b in SeenBefore(owners, j);
    }
    forall j, b | 0 <= j < |steps| && steps[j].switch == Some(CheckoutLine(b))
      ensures b == "main" || exists i :: 0 <= i < j && steps[i].switch == Some(BranchLine(b))
    {
      assert SwitchAt(owners, steps, j);
      assert b == owners[j] && b in SeenBefore(owners, j);
      if b != "main" {
        FirstOccurrenceBranches(owners, steps, j, b);
      }
    }
  }

  /** A branch other than "main" seen before `j` got its `branch` line at its first commit. */
  lemma FirstOccurrenceBranches(owners: seq<string>, steps: seq<Step>, j: nat, b: string)
    requires |steps| == |owners| && SwitchesFollowBranches(owners, steps)
    requires j <= |owners| && b != "main" && b in SeenBefore(owners, j)
    ensures exists i :: 0 <= i < j && steps[i].switch == Some(BranchLine(b))
  {
    var i :| 0 <= i < j && owners[i] == b;
    var first := FirstIndexOf(owners, b, i);
    assert b !in SeenBefore(owners, first) by {
      forall k | 0 <= k < first ensures owners[k] != b { }
    }
    assert first > 0 ==> owners[first - 1] in SeenBefore(owners, first);
    assert SwitchAt(owners, steps, first);
    assert steps[first].switch == Some(BranchLine(b));
  }

  /** The first position holding `b`, at or before `i`. */
  function FirstIndexOf(owners: seq<string>, b: string, i: nat): (k: nat)
    requires i < |owners| && owners[i] == b
    ensures k <= i && owners[k] == b
    ensures forall m :: 0 <= m < k ==> owners[m] != b
  {
    if owners[0] == b then 0
    else 1 + FirstIndexOf(owners[1..], b, i - 1)
  }
}
