# Commits of your life — a verified model of the life-repository builder

The application turns a journal into a git repository. Language-model agents
pull out life events, date them and write a commit message for each. A plan
groups some events into narrative branches. `create_life_repo` then commits
the events in date order on `main` or on their branch, and merges each branch
back into `main` once its last event is in. A reader shows the repository
again as graph data and as a Mermaid `gitGraph`. A notes vault is cut into
chunks for a vector store and searched by date window for context.

This project models the deterministic core of that pipeline in Dafny and
proves what it promises:

- **LifeRepo**, **LifeRepoProps**, **GitStore**, **BranchPlan**, **StableSort**:
  the builder `create_life_repo`. It is an imperative `RepoBuilder` over a
  `Repo` object, proved equal to a functional run (`Step`, `Run`,
  `CreatedRepo`) whose properties are proved as lemmas. Those properties are
  one commit per event, the date order, the merge rule, branch creation and
  order, the failure cases, and the effects of the unchecked plan.
- **Agents**: the list processing after each agent's reply. This covers
  `resolve_dates`, `generate_commits`, `classify_branches`, `validate_output`
  and `format_for_git_creation`, over a `LifeEvent` class mutated in place.
  Python's behaviour on a reply of the wrong shape is modelled.
- **GraphReader** and **Keyword**: `_infer_commit_branch`,
  `extract_graph_data`, `repo_to_mermaid` and `_extract_keyword`.
- **NoteMeta**, **NoteChunks**, **VaultIngest**: `_split_frontmatter`,
  `_extract_metadata`, `_chunk_text` (both `re.split` patterns are modelled
  exactly) and the batching loop of `VaultIngester.ingest`.
- **IsoDates** and **VaultSearch**: `_days_between`, the bucketing and
  selection of `search_vault`, and the index filter of `_filter_with_haiku`.
- **Text**, **Lists**, **Wrappers**: the Python string and list behaviour the
  other modules use, plus `Option`/`Result`.

Commit ids in the builder are positions in the commit sequence. Dates are
integers, already parsed.

The code does not check the branch plan before the builder runs. The index
lookup keeps the last entry that lists an index, and the owed sets are taken
from the plan as given, including indices no event has and indices another
entry lists again.
`DuplicateIndexBlocksMerge` and `UnknownIndexBlocksMerge` state the
consequence. Likewise, a plan entry named `main` makes `git checkout -b main`
fail, so the build raises. `CreatedRepoFails` states this.

## Model

| member | source | states |
|---|---|---|
| LifeRepo.CreateLifeRepo | app.py:123-278 | The imperative builder returns exactly the repository and metadata of `CreatedRepo` for the events in stable date order, and fails exactly when it does, with the same error. With no events it fails before any commit. |
| LifeRepo.RepoBuilder.CommitEvent | app.py:184-256 | One loop iteration changes the builder and the repository exactly as `Step` does, and reports failure exactly when `Step` fails. |
| LifeRepo.RepoBuilder.CommitAll | app.py:184-256 | The event loop leaves the builder in the state `Run` computes, or stops with the error `Run` reports. |
| LifeRepo.BuildRoute | app.py:155-158 | The nested loop builds exactly the last-writer-wins lookup `Route(plan)`. |
| LifeRepo.BuildRemaining | app.py:160-164 | The loop builds exactly the owed sets `Remaining(plan)`. |
| LifeRepo.Step | app.py:184-256 | One event keeps the builder invariant. The refs are exactly `main` plus the created branches, `main` is never among the created ones, and every routed entry's name still has an owed set. |
| LifeRepo.StepBounded | app.py:184-256 | One event keeps the repository valid: refs name existing commits and parents are older than children. Every commit has a branch-map entry, and every merge, keyword and event record names an existing commit. |
| LifeRepo.RunBounded | app.py:184-256 | The same holds after any run of events that does not fail. |
| LifeRepo.Start | app.py:166-182 | The initial commit on `main` gives a state satisfying the builder invariant for the plan's lookup, and a valid repository whose maps name existing commits. |
| LifeRepo.RunFailsFrom | app.py:184-278 | Once a prefix of the timeline fails, the whole build fails with that error (the exception propagates). |
| LifeRepoProps.CreatedRepoFails | app.py:149-151 | The build fails with `NoEvents` exactly for an empty event list. It fails at all exactly when the list is empty or some event is routed to an entry named `main`. |
| LifeRepoProps.RunFails | app.py:197-200 | A run fails exactly when one of its events is routed to `main`, and the error is `BranchExists("main")`. |
| LifeRepoProps.StepFails | app.py:197-200 | A step fails exactly for an event routed to an entry named `main`. |
| LifeRepoProps.CreatedRepoCommitCount | app.py:181 | Total commits equal the number of events, plus one initial commit, plus one per merge performed. |
| LifeRepoProps.RunCounts | app.py:213-236 | Each event adds one commit, plus one when it merges. |
| LifeRepoProps.CreatedRepoEventCommits | app.py:206-220 | Every event gets its own commit: same message and date, one parent, branch map entry = its routed branch or `main`, keyword entry iff the keyword is non-empty, not a merge. Different events get different commits. |
| LifeRepoProps.RunRecordsEvents | app.py:184-256 | After a run, exactly the processed events have commits, each described as above, all distinct. |
| LifeRepoProps.CreatedRepoEventOrder | app.py:149-152 | An event with an earlier date, or with the same date and an earlier input position, is committed before the other (stable sort). |
| LifeRepoProps.RunInOrder | app.py:184-185 | Events processed later get later commits. |
| LifeRepoProps.CreatedRepoDates | app.py:177-182 | Commit 0 is the parentless initial commit `Initialize life story`, dated at the earliest event and mapped to `main`. Commit dates never decrease. The build ends with `main` checked out. |
| LifeRepoProps.RunDates | app.py:184-256 | Committing events in date order keeps the whole history in date order. |
| LifeRepoProps.StepParent | app.py:197-205 | An event's commit has one parent. It is the branch's tip for an existing branch, and `main`'s tip for a new branch (forked from `main`) or an event on `main`. |
| LifeRepoProps.CreatedRepoBranchOrder | app.py:170 | `branch_order` starts with `main`, lists no branch twice, and lists exactly `main` and the branches some event was committed on. |
| LifeRepoProps.StepBranchOrder | app.py:197-204 | A step opens the event's branch only if it is not yet created, and appends it at the end of `branch_order`. Otherwise neither the created set nor the order changes. |
| LifeRepoProps.StepMerge | app.py:222-224 | A step merges exactly when its event is routed, was the last index its branch owed, and the entry merges. Otherwise no merge is recorded. |
| LifeRepoProps.StepMergeCommit | app.py:223-238 | The merge commit joins `main`'s tip and the branch commit just made, under the entry's merge message, at the event's date. It is mapped to `main` and recorded as a merge of the branch. |
| LifeRepoProps.CreatedRepoMerges | app.py:222-238 | Every merge commit is on `main` and has two parents. It carries the message of a merging entry of its branch, and that branch owes nothing any more. |
| LifeRepoProps.RunMerges | app.py:222-238 | The same, for every merge a run makes. |
| LifeRepoProps.RunOwed | app.py:221-224 | An owed index that no processed event commits on its branch stays owed, and that branch is never merged. |
| LifeRepoProps.OwedIndexBlocksMerge | app.py:160-164 | Take the last plan entry of a name. If it lists an index no event commits on that branch, the branch never merges and keeps owing the index. |
| LifeRepoProps.DuplicateIndexBlocksMerge | app.py:155-164 | An index listed by an entry and again by a later entry of another name goes to the later branch. The earlier branch, if it is the last entry of its name, never merges. |
| LifeRepoProps.UnknownIndexBlocksMerge | app.py:160-164 | An out-of-range index listed by the last entry of a name keeps that branch from ever merging. |
| LifeRepoProps.LastListingExists | app.py:156-158 | Some entry at or after any listing entry is the last one listing the index. |
| GitStore.WithCommit | app.py:213-217 | A commit appends one commit. Its parent is the checked-out branch's tip (none on an unborn branch), and it becomes that tip. Repository validity is kept. |
| GitStore.WithNewBranch | app.py:199-200 | `checkout -b` fails exactly when the name exists. Otherwise it adds a ref at the current tip and checks it out. |
| GitStore.WithMerge | app.py:226-231 | A `--no-ff` merge appends a two-parent commit (current tip, merged tip) that becomes the current tip. |
| GitStore.Repo.CommitOnHead | app.py:213-217 | The in-place commit matches `WithCommit` and returns the new commit's id. |
| GitStore.Repo.CheckoutNew | app.py:199-200 | The in-place `checkout -b` matches `WithNewBranch` and leaves the repository unchanged on failure. |
| GitStore.Repo.Merge | app.py:226-231 | The in-place merge matches `WithMerge`. |
| BranchPlan.RouteDomain | app.py:155-158 | An index is in the lookup exactly when some entry lists it. |
| BranchPlan.RouteLastWriter | app.py:155-158 | An index maps to the last entry that lists it. |
| BranchPlan.RouteFromPlan | app.py:155-158 | A looked-up entry is an entry of the plan that lists the index. |
| BranchPlan.RemainingDomain | app.py:160-164 | Exactly the entries' names have an owed set. |
| BranchPlan.RemainingLastWriter | app.py:160-164 | A name's owed set is the index set of the last entry of that name. |
| BranchPlan.RoutedNamesHaveRemaining | app.py:221 | Every routed entry's name has an owed set, so the `discard` never raises. |
| BranchPlan.MergeMessage | app.py:225 | The entry's `merge_message`, defaulting to `Merge branch '<name>'`. |
| StableSort.StableOrder | app.py:152 | The insertion loop yields every position once, ordered by key and, for equal keys, by position. |
| StableSort.StableOrderUnique | app.py:152 | That arrangement is unique, so the sort is deterministic. |
| StableSort.FirstIsLeast | app.py:178 | The first position of the order has the least key. |
| Agents.AlignedValuesSpec | agents.py:106-110 | The assignment loop succeeds exactly when the reply is a list (or an empty string/object) whose reached items are objects. It then assigns `data[i].get(key, default_i)` to the first `min(n, len(data))` events. |
| Agents.AlignedFailsFrom | agents.py:106-111 | Once a step raises, every longer run raises. |
| Agents.AssignAligned | agents.py:106-110 | The in-place loop raises exactly when there is some event and the reply is unparseable or its aligned values fail. Otherwise event i gets the i-th reply value for i below the reply length. Only the assigned field of each event changes. |
| Agents.ResolveDates | agents.py:106-115 | Event i gets the i-th reply's `date` for i below the reply length and keeps its date otherwise. If anything raises, every event gets the current day. |
| Agents.GenerateCommits | agents.py:151-159 | Event i gets the i-th reply's `commit` (default: its description) for i below the reply length. If anything raises, every message becomes the description. |
| Agents.MarkedExactly | agents.py:186-193 | An index is marked exactly when it is in `[0, len(events))` and listed before the first item that raises. |
| Agents.ClassifyBranches | agents.py:186-193 | Exactly the marked events become major changes. No other event and no other field changes. |
| Agents.CompleteEventsExactly | agents.py:201-204 | The kept events are exactly those with a truthy commit message and date, each kept as many times as the list holds it, in their original order. |
| Agents.CompleteEventsCounts | agents.py:201-204 | A complete event listed several times is kept that many times, and an incomplete one never. |
| Agents.CompleteEventsOrdered | agents.py:201-204 | The kept events are a subsequence of the input, in input order. |
| Agents.ValidateOutput | agents.py:197-206 | It returns the complete events, or the original list when none is complete. |
| Agents.FormatForGitCreation | agents.py:208-218 | One dictionary per event, in order, each field copied. |
| Agents.LifeEvent.constructor | agents.py:16-21 | A new event has its description and the dataclass defaults. |
| IsoDates.DaysBetween | app.py:545-553 | A result exists exactly when the first ten characters of both strings parse as ISO dates. |
| IsoDates.ParseFormatRoundTrip | app.py:545-553 | Parsing an ISO-formatted valid date gives it back. |
| IsoDates.FormatParseRoundTrip | app.py:545-553 | Every string the parser accepts is exactly what `isoformat` writes for the parsed date. |
| IsoDates.DaysBetweenParsed | app.py:545-553 | When the first ten characters of both strings parse, they are the rendered dates, and the result is the absolute difference of their day numbers, whatever follows those ten characters. |
| IsoDates.DaysBetweenFormatted | app.py:545-553 | The day distance of two formatted dates is the absolute difference of their day numbers. |
| IsoDates.NextDayFormatted | app.py:545-553 | Consecutive days, across month ends, year ends and leap days, are one day apart. |
| IsoDates.OrdinalNextDay | app.py:545-553 | Day numbers advance by one from each date to the next, across month ends, year ends and leap days. |
| IsoDates.YearLength | app.py:545-553 | A year has 366 days exactly when it is a leap year. |
| VaultSearch.SearchVault | app.py:556-624 | A blank query is an error. Otherwise each bucket holds its window's hits in input order. The tight and wide buckets are stably sorted by distance, and the result is the selection from them. |
| VaultSearch.SelectionWindows | app.py:609-621 | At most 8 notes, each from the hits and within 90 days. With 3 or more notes within 30 days, only such notes. |
| VaultSearch.SelectionOrderWithoutFilter | app.py:606-615 | Without the filter: tight notes before wide ones, each window by ascending distance. |
| VaultSearch.BucketsPartition | app.py:577-604 | Every hit lands in exactly one bucket. Without an event date, all go to the rest. |
| VaultSearch.BucketHits | app.py:581-604 | The bucketing loop fills the tight, wide and rest buckets with exactly their window's hits, in input order. |
| VaultSearch.Classify | app.py:596-604 | One hit goes to exactly the bucket of its window, and the other two buckets are unchanged. |
| VaultSearch.WindowOfRest | app.py:592-604 | Undated, unparseable or over-90-day notes are never tight or wide. Tight means a gap of at most 30 days. |
| VaultSearch.FilterWithHaiku | app.py:534-542 | The filter returns candidates only. A failed call gives the first 8, and a reply without an array gives the first 4. A list naming some in-range note gives exactly the named notes in the reply's order; one naming none (the empty answer included) gives the first 4. A non-empty pool is never emptied. |
| VaultSearch.PicksMembers | app.py:537 | A note is picked exactly when an in-range kept index names it. |
| VaultSearch.FilterKeepsNamedNotes | app.py:537-538 | A reply naming notes returns exactly those, in the reply's order. |
| Keyword.ExtractKeyword | visualize.py:16-54 | The two passes over the words compute exactly the keyword `KeywordOfMessage` defines. |
| Keyword.KeywordOfMessage | visualize.py:16-54 | The keyword has at most 12 characters. |
| Keyword.KeywordQuestionMarkIffBlank | visualize.py:54 | The keyword is `?` exactly for a blank message. |
| Keyword.KeywordFromCapital | visualize.py:33-48 | The first qualifying capitalised word after the first word gives the keyword. It is joined to a preceding place prefix. |
| Keyword.KeywordFromFallback | visualize.py:49-53 | Without such a word, the last non-skip word, cleaned and cut to 12. |
| Keyword.KeywordLastWord | visualize.py:54 | When every word is a skip word, the last word itself, cut to 12. |
| Keyword.CapitalPass | visualize.py:33-48 | The capitalised pass returns the first qualifying position from the second word on, or none. A qualifying word is capitalised, not a skip word, and not a place prefix waiting for a capitalised next word. |
| Keyword.FallbackPass | visualize.py:49-53 | The backward pass returns the last position whose cleaned word is not a skip word, or none. |
| Keyword.FirstWhere | visualize.py:33-48 | The least position in a range satisfying a test, or none when no position in the range does. |
| Keyword.LastWhere | visualize.py:49-53 | The greatest position below a bound satisfying a test, or none when no such position does. |
| GraphReader.BestBranch | visualize.py:72-79 | The branch with the strictly smallest reachable set containing the commit, first on ties, else `main`. |
| GraphReader.OwnerUnique | visualize.py:72-79 | That owner is unique. |
| GraphReader.InferCommitBranch | visualize.py:66-80 | Every commit is mapped to its owner. |
| GraphReader.CommitBranches | visualize.py:90-98 | A commit's branch is `branch_map[sha]` (default `main`) with metadata, else the inferred owner. |
| GraphReader.MergeShas | visualize.py:100-104 | A hash is a merge hash exactly when a commit with it has more than one parent. |
| GraphReader.MergeFlagDistinct | visualize.py:100-104 | With distinct hashes, `is_merge` holds exactly for multi-parent commits. |
| GraphReader.FallbackOrder | visualize.py:132-136 | Without metadata, `main` followed by each new branch in order of first appearance. |
| GraphReader.FallbackBranchOrder | visualize.py:132-136 | That list starts with `main`, has no repeats, contains exactly the shown branches, and follows first-appearance order. |
| GraphReader.ExtractGraphData | visualize.py:83-143 | One entry per commit: branch, first line, 8-character hashes, merge flag, and the metadata keyword before the heuristic one. Metadata order when present. Counts match. |
| GraphReader.AllShownAt | visualize.py:113-127 | Entry k of the built list describes commit k: 8-character hash, first line of the stripped message, short parent hashes, date, branch, merge flag and keyword. |
| GraphReader.FirstLine | visualize.py:115 | The text before the first newline. |
| GraphReader.MermaidMessage | visualize.py:166-169 | No `"` and no newline remain. At most 40 characters; a longer message becomes 37 characters plus `...`. Each kept character is the stripped message's character at the same position, with `"` shown as `'` and a newline as a space. |
| GraphReader.CommitEntry | visualize.py:182-189 | A merge line exactly for a multi-parent commit on `main` with a known source, naming that source. `HIGHLIGHT` for any other multi-parent commit, and a plain commit line otherwise. Every kind is captioned with the commit's day, a space and its caption text. |
| GraphReader.MermaidStep | visualize.py:173-189 | No switch line when staying on the branch. `branch` for an unseen branch, `checkout` for a seen one. Then the commit line. |
| GraphReader.RepoToMermaid | visualize.py:146-192 | The text is the header, then per commit its switch and commit lines, joined by newlines. |
| GraphReader.MermaidAdvance | visualize.py:167-189 | One pass of the commit loop appends exactly the next commit's switch and commit lines, makes that commit's branch the active one, adds it to the seen branches, and keeps the lines in step with the commits so far. |
| GraphReader.EntriesFollowAt | visualize.py:182-189 | The commit line emitted for commit k is the merge, highlight or plain line that commit's owner and metadata call for. |
| GraphReader.BranchLinesOnce | visualize.py:173-180 | A `branch` line appears at most once per branch and never for `main`. `checkout` names `main` or a branch opened earlier. |
| NoteMeta.SplitFrontmatter | discover.py:130-141 | `({}, text)` without an opening fence, without a closing fence, or when the header is not a mapping. Otherwise the mapping and the rest after the second fence. |
| NoteMeta.SplitRoundTrip | discover.py:130-141 | A fenced mapping header followed by a body splits back into them, when the header holds no fence and does not end in `-`. |
| NoteMeta.ExtractMetadata | discover.py:144-172 | The path and name. The date comes from the front matter (first ten characters), else the file name's leading `YYYY-MM-DD`, else the mtime day. Then the tags text. |
| NoteMeta.TagsText | discover.py:163-170 | A list gives its items' texts joined with `, `, a string is kept, and a missing key or any other value gives `""`. |
| Text.JoinSnoc | discover.py:166 | Joining one more part appends the separator and that part. |
| Text.JoinLength | discover.py:166 | The joined text is as long as the parts together plus one separator between each two. |
| NoteChunks.ChunkText | discover.py:175-205 | The chunking method computes exactly `TextChunks`. |
| NoteChunks.ChunkParagraphs | discover.py:185-203 | The paragraph loop's chunks are exactly every paragraph's chunks, concatenated in paragraph order. |
| NoteChunks.AddParagraph | discover.py:187-203 | One iteration appends exactly that paragraph's chunks: none for a blank one, the stripped paragraph up to 500 characters, the packed sentences beyond. |
| NoteChunks.TextChunksFacts | discover.py:177-205 | No chunks exactly for a blank body. A note under 100 words is the single stripped body. Every chunk is trimmed and non-empty, and a longer note's chunks are at most 500 characters unless a single sentence. |
| NoteChunks.PackSentences | discover.py:196-203 | The packing loop computes exactly the greedy packing's chunks. |
| NoteChunks.PackPartition | discover.py:196-203 | Packing keeps all sentences, in order, in non-empty groups. |
| NoteChunks.PackFits | discover.py:198 | Every group fits in 500 characters before its last sentence's trailing space. |
| NoteChunks.PackGreedy | discover.py:198-200 | A group is closed only when the next sentence would overflow it. |
| NoteChunks.OneParagraphGood | discover.py:187-203 | A paragraph yields chunks exactly when it is not blank, and all are good. |
| NoteChunks.SentencesRejoin | discover.py:195 | The sentences and the cut whitespace give back the paragraph. |
| NoteChunks.ParagraphsRejoin | discover.py:185 | The paragraphs and the cut blank-line separators give back the text. |
| VaultIngest.Ingest | discover.py:80-125 | A missing vault is an error. Otherwise every chunk of every eligible file is upserted once, in walk order, in batches of 100 and a smaller last batch. The count returned is the number upserted. |
| VaultIngest.AllDocsFromEligible | discover.py:88-109 | Every stored chunk comes from an eligible file: allowed suffix, not in a skipped directory, non-blank. |
| VaultIngest.NoteChunkDocs | discover.py:100-109 | One note's chunks with ids, metadata and positions, as `FileDocs` gives. |
| VaultIngest.AddChunks | discover.py:104-116 | Batching a note's chunks loses, duplicates and reorders nothing. Every flushed batch holds exactly 100 documents, the open batch fewer, and the count added equals the documents flushed. |
| VaultIngest.ChunkKeyInjective | discover.py:208-211 | Different files or positions give different hashed keys. |
| VaultIngest.Stem | discover.py:146 | The name without its suffix, which put back gives the name. |

## Left out

- Git itself: hashing, the working tree, the index, `event_NNN.md` and `README.md` contents, user config, and `iter_commits` ordering. Commits are positions in a sequence, and the reader takes its commit list and the reachable sets as inputs.
- `git init` is taken to leave `main` checked out (an unborn branch). A different default branch is not modelled.
- Git ref-name validity is not modelled: any string is a branch name, and only an existing name makes `checkout -b` fail.
- File I/O is left out: the repository directory, its timestamped name, `.branch_meta.json` serialisation and `shutil.rmtree` on error. The metadata maps are outputs of the model.
- Date parsing with `dateutil` and timezone fix-ups: event dates are integers, already parsed and comparable.
- LLM calls, prompts, `extract_events`, the asyncio wrapper and the API call in `_filter_with_haiku`. Replies are inputs, either a decoded JSON value or a decode failure.
- `json.loads` producing NaN or Infinity is not modelled. Floats are real numbers.
- `datetime.now()` in `resolve_dates` is a parameter (the current day).
- ChromaDB, embeddings and the semantic query: the hits and their distances are inputs.
- The YAML loader and SHA-256 are function parameters. The vault walk is given as its sorted listing, with each file's text and mtime day.
- `NoteMeta.SplitFrontmatter` models the YAML loader as either loading a value or raising `yaml.YAMLError`, which the source catches. A loader exception of any other type escapes `_split_frontmatter` in the source and is not modelled. PyYAML's `ValueError` for an impossible calendar date such as `date: 2024-02-30` is one example.
- `VaultIngest.Ingest` therefore fails only for a missing vault directory. In the source, such a non-`YAMLError` exception from one note's header also ends the ingest with that exception instead of a count.
- Flask routes, the request cache, zip download, the HTML and JavaScript renderers, the CLI entry points and `regenerate.py`.
- Plan entries without `"name"` (a `KeyError`), non-integer indices in `events_on_branch`, and a non-boolean `merges` value (only absent, `true` and `false` are modelled).
- `BranchPlan.MergeMessage` models `merge_message` only as absent or a string. A key present with `null` or another non-string value is passed to `git merge` unchanged by the source; the model has no value for it.
- `Agents.AssignAligned`, `Agents.ResolveDates`, `Agents.GenerateCommits` and `Agents.ClassifyBranches` require the list to hold distinct `LifeEvent` objects. Aliasing within one list is not modelled.
- `Keyword.ExtractKeyword`, `Text.Lower` and the capitalisation tests fold case and test capitals for ASCII letters only.
- `IsoDates.DaysBetween` follows `date.fromisoformat` as it is before Python 3.11: only `YYYY-MM-DD` with ASCII digits parses. The basic form `YYYYMMDD` and ISO week dates (`2024-W01-1`) that Python 3.11 and later also accept give no result in the model, so such a note date goes to the rest bucket.
- `NoteMeta.ExtractMetadata` tests the file name's leading date with ASCII digits only. Python's `\d` on a `str` pattern also matches other Unicode decimal digits (fullwidth `２０２４-０１-０５`, say); for such a name the model takes the modification day instead.
- `GraphReader.ExtractGraphData` does not model `committed_datetime.isoformat()`. The commit's time text is an input.
- `LifeRepoProps.CreatedRepoMerges` does not state that every exhausted merging branch is merged. It states the converse, that each merge happens only for an exhausted merging branch, and `StepMerge` states the per-step condition in both directions.
