/**
 * Date-window selection of note fragments for a life event (`search_vault` and
 * the index filter of `_filter_with_haiku`). The semantic query that produces the
 * hits and the language-model call that produces the reply are inputs.
 */
module VaultSearch {
  import opened Wrappers
  import opened Text
  import opened IsoDates
  import opened StableSort

  /** One result of the semantic query: document text and its metadata. */
  datatype Hit = Hit(text: string, fileName: string, date: string, distance: real)

  /** The entry the route builds for a hit and may return. */
  datatype Note = Note(text: string, file: string, date: string, distance: real)

  /** The three date buckets: within 30 days, within 90 days, and everything else. */
  datatype Window = Tight | Wide | Rest

  /** What the filtering model replied, after the first JSON array was looked for and parsed. */
  datatype HaikuReply =
    | Failed              // the call or the JSON parse raised
    | NoArray             // the reply held no `[...]` of digits, commas and spaces
    | Indices(keep: seq<int>)

  datatype SearchError = QueryRequired

  /** The entry of a hit; without distances from the store every entry carries 999. */
  function EntryOf(h: Hit, withDistances: bool): Note {
    Note(h.text, h.fileName, h.date, if withDistances then h.distance else 999.0)
  }

  function Entries(hits: seq<Hit>, withDistances: bool): (r: seq<Note>)
    ensures |r| == |hits|
    ensures forall i :: 0 <= i < |hits| ==> r[i] == EntryOf(hits[i], withDistances)
  {
    seq(|hits|, i requires 0 <= i < |hits| => EntryOf(hits[i], withDistances))
  }

  /** The bucket a note dated `noteDate` falls in for an event dated `commitDate`. */
  function WindowOf(commitDate: string, noteDate: string): Window {
    if commitDate != [] && noteDate != [] then
      match DaysBetween(commitDate, noteDate)
      case Some(gap) => if gap <= 30 then Tight else if gap <= 90 then Wide else Rest
      case None => Rest
    else Rest
  }

  /** The entries that fall in window `w`, in their original order. */
  function Bucket(entries: seq<Note>, commitDate: string, w: Window): (r: seq<Note>)
    ensures |r| <= |entries|
    ensures forall k :: 0 <= k < |r| ==> r[k] in entries && WindowOf(commitDate, r[k].date) == w
  {
    if entries == [] then []
    else
      var last := entries[|entries| - 1];
      var r := Bucket(entries[..|entries| - 1], commitDate, w);
      r + (if WindowOf(commitDate, last.date) == w then [last] else [])
  }

  function Distances(ns: seq<Note>): (r: seq<real>)
    ensures |r| == |ns|
    ensures forall i :: 0 <= i < |ns| ==> r[i] == ns[i].distance
  {
    seq(|ns|, i requires 0 <= i < |ns| => ns[i].distance)
  }

  /** The candidate pool: the tight bucket when it has three notes or more, else tight followed by wide. */
  function Candidates(tight: seq<Note>, wide: seq<Note>): seq<Note> {
    if |tight| >= 3 then tight else tight + wide
  }

  /** `[candidates[i] for i in keep if 0 <= i < len(candidates)]`. */
  function Picks(candidates: seq<Note>, keep: seq<int>): (r: seq<Note>)
    ensures |r| <= |keep|
    ensures forall x :: x in r ==> x in candidates
  {
    if keep == [] then []
    else
      var i := keep[0];
      (if 0 <= i < |candidates| then [candidates[i]] else []) + Picks(candidates, keep[1..])
  }

  /** A note is picked exactly when some kept index in range names it. */
  lemma {:induction false} PicksMembers(candidates: seq<Note>, keep: seq<int>, x: Note)
    ensures x in Picks(candidates, keep) <==>
            exists j :: 0 <= j < |keep| && 0 <= keep[j] < |candidates| && candidates[keep[j]] == x
  {
    if keep != [] {
      PicksMembers(candidates, keep[1..], x);
      if x in Picks(candidates, keep[1..]) {
        var j :| 0 <= j < |keep[1..]| && 0 <= keep[1..][j] < |candidates| && candidates[keep[1..][j]] == x;
        assert keep[j + 1] == keep[1..][j];
      }
      if exists j :: 0 <= j < |keep| && 0 <= keep[j] < |candidates| && candidates[keep[j]] == x {
        var j :| 0 <= j < |keep| && 0 <= keep[j] < |candidates| && candidates[keep[j]] == x;
        if j > 0 {
          assert keep[1..][j - 1] == keep[j];
        }
      }
    }
  }

  /** `_filter_with_haiku` after the reply: the picked notes, or the first 4 when none, or the first 8 when the call failed. */
  function FilterWithHaiku(candidates: seq<Note>, reply: HaikuReply): (r: seq<Note>)
    ensures forall x :: x in r ==> x in candidates
    ensures reply.Failed? ==> r == Take(candidates, 8)
    ensures reply.NoArray? ==> r == Take(candidates, 4)
    ensures reply.Indices? && Picks(candidates, reply.keep) == [] ==> r == Take(candidates, 4)
    ensures reply.Indices? && Picks(candidates, reply.keep) != [] ==> r == Picks(candidates, reply.keep)
    ensures candidates != [] ==> r != []
  {
    match reply
    case Failed => Take(candidates, 8)
    case NoArray => Take(candidates, 4)
    case Indices(keep) =>
      var picked := Picks(candidates, keep);
      if picked != [] then picked else Take(candidates, 4)
  }

  /** What the route returns from the sorted buckets. */
  function Selection(tightSorted: seq<Note>, wideSorted: seq<Note>, useHaiku: bool, reply: HaikuReply): seq<Note> {
    var top := Take(Candidates(tightSorted, wideSorted), 20);
    var chosen := if useHaiku && top != [] then FilterWithHaiku(top, reply) else top;
    Take(chosen, 8)
  }

  /** The bucket `w` sorted by ascending distance, stably, along `order`. */
  ghost predicate SortedBucket(entries: seq<Note>, commitDate: string, w: Window, order: seq<nat>) {
    IsStableOrder(Distances(Bucket(entries, commitDate, w)), order)
  }

  /**
   * The route's body after the query: bucket every hit, sort each bucket by
   * distance, choose the candidates, optionally filter them, and return at most 8.
   */
  method SearchVault(query: string, hits: seq<Hit>, withDistances: bool, commitDate: string,
                     useHaiku: bool, reply: HaikuReply)
    returns (r: Result<seq<Note>, SearchError>, ghost tightOrder: seq<nat>, ghost wideOrder: seq<nat>)
    ensures r.Err? <==> IsBlank(Strip(query))
    ensures r.Ok? ==>
      var entries := Entries(hits, withDistances);
      var tight := Bucket(entries, commitDate, Tight);
      var wide := Bucket(entries, commitDate, Wide);
      && SortedBucket(entries, commitDate, Tight, tightOrder)
      && SortedBucket(entries, commitDate, Wide, wideOrder)
      && r.value == Selection(Arrange(tight, tightOrder), Arrange(wide, wideOrder), useHaiku, reply)
  {
    tightOrder, wideOrder := [], [];
    if Strip(query) == [] {
      return Err(QueryRequired), tightOrder, wideOrder;
    }
    var tight, wide, rest := BucketHits(hits, withDistances, commitDate);
    var tOrder := StableOrder(Distances(tight));
    var wOrder := StableOrder(Distances(wide));
    var rOrder := StableOrder(Distances(rest));
    var tightSorted, wideSorted, restSorted := Arrange(tight, tOrder), Arrange(wide, wOrder), Arrange(rest, rOrder);
    tightOrder, wideOrder := tOrder, wOrder;
    var candidates := if |tightSorted| >= 3 then tightSorted else tightSorted + wideSorted;
    var top := Take(candidates, 20);
    if useHaiku && top != [] {
      top := FilterWithHaiku(top, reply);
    }
    r := Ok(Take(top, 8));
  }

  /** The bucketing loop of `search_vault`: every hit's entry goes to the bucket of its date gap. */
  method BucketHits(hits: seq<Hit>, withDistances: bool, commitDate: string) returns (tight: seq<Note>, wide: seq<Note>, rest: seq<Note>)
    ensures tight == Bucket(Entries(hits, withDistances), commitDate, Tight)
    ensures wide == Bucket(Entries(hits, withDistances), commitDate, Wide)
    ensures rest == Bucket(Entries(hits, withDistances), commitDate, Rest)
  {
    ghost var entries := Entries(hits, withDistances);
    tight, wide, rest := [], [], [];
    for i := 0 to |hits|
      invariant tight == Bucket(entries[..i], commitDate, Tight)
      invariant wide == Bucket(entries[..i], commitDate, Wide)
      invariant rest == Bucket(entries[..i], commitDate, Rest)
    {
      assert EntryOf(hits[i], withDistances) == entries[i];
      BucketStep(entries, i, commitDate);
      tight, wide, rest := Classify(EntryOf(hits[i], withDistances), commitDate, tight, wide, rest);
    }
    assert entries[..|hits|] == entries;
  }

  /** One pass of the bucketing loop: the entry goes to the bucket of its date gap. */
  method Classify(entry: Note, commitDate: string, tight0: seq<Note>, wide0: seq<Note>, rest0: seq<Note>)
    returns (tight: seq<Note>, wide: seq<Note>, rest: seq<Note>)
    ensures tight == tight0 + (if WindowOf(commitDate, entry.date) == Tight then [entry] else [])
    ensures wide == wide0 + (if WindowOf(commitDate, entry.date) == Wide then [entry] else [])
    ensures rest == rest0 + (if WindowOf(commitDate, entry.date) == Rest then [entry] else [])
  {
    tight, wide, rest := tight0, wide0, rest0;
    if commitDate != [] && entry.date != [] && DaysBetween(commitDate, entry.date).Some? {
      var gap := DaysBetween(commitDate, entry.date).value;
      if gap <= 30 {
        tight := tight + [entry];
      } else if gap <= 90 {
        wide := wide + [entry];
      } else {
        rest := rest + [entry];
      }
    } else {
      rest := rest + [entry];
    }
  }

  lemma BucketStep(entries: seq<Note>, i: nat, commitDate: string)
    requires i < |entries|
    ensures forall w ::
      Bucket(entries[..i + 1], commitDate, w)
        == Bucket(entries[..i], commitDate, w) + (if WindowOf(commitDate, entries[i].date) == w then [entries[i]] else [])
  {
    assert entries[..i + 1][..i] == entries[..i];
  }

  /** Every entry lands in exactly one bucket; undated notes and an undated event go to the rest. */
  lemma {:induction false} BucketsPartition(entries: seq<Note>, commitDate: string)
    ensures |Bucket(entries, commitDate, Tight)| + |Bucket(entries, commitDate, Wide)|
            + |Bucket(entries, commitDate, Rest)| == |entries|
    ensures commitDate == [] ==> Bucket(entries, commitDate, Rest) == entries
  {
    if entries != [] {
      var prev := entries[..|entries| - 1];
      BucketsPartition(prev, commitDate);
      var w := WindowOf(commitDate, entries[|entries| - 1].date);
      assert commitDate == [] ==> w == Rest;
      assert Bucket(entries, commitDate, w) == Bucket(prev, commitDate, w) + [entries[|entries| - 1]];
    }
  }

  /** A note more than 90 days away, undated, or with an unreadable date is never in the tight or wide bucket. */
  lemma WindowOfRest(commitDate: string, noteDate: string)
    ensures (commitDate == [] || noteDate == [] || DaysBetween(commitDate, noteDate).None?) ==> WindowOf(commitDate, noteDate) == Rest
    ensures WindowOf(commitDate, noteDate) != Rest ==>
            DaysBetween(commitDate, noteDate).Some? && DaysBetween(commitDate, noteDate).value <= 90
    ensures WindowOf(commitDate, noteDate) == Tight <==>
            commitDate != [] && noteDate != [] && DaysBetween(commitDate, noteDate).Some? && DaysBetween(commitDate, noteDate).value <= 30
  {
  }

  /** A stably sorted bucket lists its notes by ascending distance. */
  lemma ArrangedAscending(xs: seq<Note>, order: seq<nat>)
    requires IsStableOrder(Distances(xs), order)
    ensures forall a, b :: 0 <= a < b < |order| ==> Arrange(xs, order)[a].distance <= Arrange(xs, order)[b].distance
  {
    forall a, b | 0 <= a < b < |order|
      ensures Arrange(xs, order)[a].distance <= Arrange(xs, order)[b].distance
    {
      assert Before(Distances(xs), order[a], order[b]);
    }
  }

  /**
   * The route returns at most 8 notes, each within 90 days of the event;
   * with three or more notes within 30 days, only such notes.
   */
  lemma SelectionWindows(entries: seq<Note>, commitDate: string, tightOrder: seq<nat>, wideOrder: seq<nat>,
                         useHaiku: bool, reply: HaikuReply)
    requires SortedBucket(entries, commitDate, Tight, tightOrder)
    requires SortedBucket(entries, commitDate, Wide, wideOrder)
    ensures var tight := Bucket(entries, commitDate, Tight);
      var out := Selection(Arrange(tight, tightOrder), Arrange(Bucket(entries, commitDate, Wide), wideOrder), useHaiku, reply);
      && |out| <= 8
      && (forall x :: x in out ==> x in entries && WindowOf(commitDate, x.date) != Rest)
      && (|tight| >= 3 ==> forall x :: x in out ==> WindowOf(commitDate, x.date) == Tight)
  {
    var tight, wide := Bucket(entries, commitDate, Tight), Bucket(entries, commitDate, Wide);
    var ts, ws := Arrange(tight, tightOrder), Arrange(wide, wideOrder);
    ArrangedMembers(tight, tightOrder);
    ArrangedMembers(wide, wideOrder);
    var out := Selection(ts, ws, useHaiku, reply);
    forall x | x in out
      ensures x in ts || x in ws
      ensures |tight| >= 3 ==> x in ts
    {
      SelectionMembers(ts, ws, useHaiku, reply, x);
    }
  }

  /** The notes of an arrangement are notes of the arranged sequence. */
  lemma ArrangedMembers(xs: seq<Note>, order: seq<nat>)
    requires forall k :: 0 <= k < |order| ==> order[k] < |xs|
    ensures forall x :: x in Arrange(xs, order) ==> x in xs
  {
    forall x | x in Arrange(xs, order) ensures x in xs {
      var k :| 0 <= k < |order| && Arrange(xs, order)[k] == x;
      assert xs[order[k]] == x;
    }
  }

  /** A selected note is a candidate: from the tight bucket, or from the wide one when fewer than three are tight. */
  lemma SelectionMembers(ts: seq<Note>, ws: seq<Note>, useHaiku: bool, reply: HaikuReply, x: Note)
    requires x in Selection(ts, ws, useHaiku, reply)
    ensures x in ts || x in ws
    ensures |ts| >= 3 ==> x in ts
  {
    var top := Take(Candidates(ts, ws), 20);
    var chosen := if useHaiku && top != [] then FilterWithHaiku(top, reply) else top;
    assert x in chosen;
    assert x in top;
    assert x in Candidates(ts, ws);
  }

  /** Notes of one window by ascending distance, and no wide note before a tight one. */
  predicate WindowOrdered(xs: seq<Note>, commitDate: string) {
    forall a, b :: 0 <= a < b < |xs| ==>
      && (WindowOf(commitDate, xs[a].date) == WindowOf(commitDate, xs[b].date) ==> xs[a].distance <= xs[b].distance)
      && !(WindowOf(commitDate, xs[a].date) == Wide && WindowOf(commitDate, xs[b].date) == Tight)
  }

  /**
   * Without the filter, the returned notes are the tight notes by ascending
   * distance, then (when fewer than three are tight) the wide notes by
   * ascending distance.
   */
  lemma SelectionOrderWithoutFilter(entries: seq<Note>, commitDate: string, tightOrder: seq<nat>, wideOrder: seq<nat>,
                                    reply: HaikuReply)
    requires SortedBucket(entries, commitDate, Tight, tightOrder)
    requires SortedBucket(entries, commitDate, Wide, wideOrder)
    ensures WindowOrdered(Selection(Arrange(Bucket(entries, commitDate, Tight), tightOrder),
                                    Arrange(Bucket(entries, commitDate, Wide), wideOrder), false, reply), commitDate)
  {
    var tight, wide := Bucket(entries, commitDate, Tight), Bucket(entries, commitDate, Wide);
    var ts, ws := Arrange(tight, tightOrder), Arrange(wide, wideOrder);
    ArrangedAscending(tight, tightOrder);
    ArrangedAscending(wide, wideOrder);
    ArrangedMembers(tight, tightOrder);
    ArrangedMembers(wide, wideOrder);
    CandidatesOrdered(ts, ws, commitDate);
    var cands := Candidates(ts, ws);
    WindowOrderedPrefix(cands, Take(cands, 20), commitDate);
    WindowOrderedPrefix(cands, Take(Take(cands, 20), 8), commitDate);
  }

  /** Tight notes by ascending distance, then wide notes by ascending distance, are window-ordered. */
  lemma CandidatesOrdered(ts: seq<Note>, ws: seq<Note>, commitDate: string)
    requires forall a, b :: 0 <= a < b < |ts| ==> ts[a].distance <= ts[b].distance
    requires forall a, b :: 0 <= a < b < |ws| ==> ws[a].distance <= ws[b].distance
    requires forall x :: x in ts ==> WindowOf(commitDate, x.date) == Tight
    requires forall x :: x in ws ==> WindowOf(commitDate, x.date) == Wide
    ensures WindowOrdered(Candidates(ts, ws), commitDate)
  {
    var cands := Candidates(ts, ws);
    forall a, b | 0 <= a < b < |cands|
      ensures WindowOf(commitDate, cands[a].date) == WindowOf(commitDate, cands[b].date) ==> cands[a].distance <= cands[b].distance
      ensures !(WindowOf(commitDate, cands[a].date) == Wide && WindowOf(commitDate, cands[b].date) == Tight)
    {
      if b < |ts| {
        assert cands[a] == ts[a] && cands[b] == ts[b];
      } else if a < |ts| {
        assert cands[a] == ts[a] && ts[a] in ts;
        assert cands[b] == ws[b - |ts|] && ws[b - |ts|] in ws;
      } else {
        assert cands[a] == ws[a - |ts|] && cands[b] == ws[b - |ts|];
        assert ws[a - |ts|] in ws && ws[b - |ts|] in ws;
      }
    }
  }

  lemma WindowOrderedPrefix(xs: seq<Note>, p: seq<Note>, commitDate: string)
    requires WindowOrdered(xs, commitDate) && p <= xs
    ensures WindowOrdered(p, commitDate)
  {
    forall a, b | 0 <= a < b < |p|
      ensures WindowOf(commitDate, p[a].date) == WindowOf(commitDate, p[b].date) ==> p[a].distance <= p[b].distance
      ensures !(WindowOf(commitDate, p[a].date) == Wide && WindowOf(commitDate, p[b].date) == Tight)
    {
      assert p[a] == xs[a] && p[b] == xs[b];
    }
  }

  /** With the filter, a reply that names notes returns exactly those notes (at most 8), in the reply's order. */
  lemma FilterKeepsNamedNotes(top: seq<Note>, keep: seq<int>)
    requires Picks(top, keep) != []
    ensures FilterWithHaiku(top, Indices(keep)) == Picks(top, keep)
    ensures forall x :: x in FilterWithHaiku(top, Indices(keep)) <==>
              exists j :: 0 <= j < |keep| && 0 <= keep[j] < |top| && top[keep[j]] == x
  {
    forall x ensures x in Picks(top, keep) <==>
              exists j :: 0 <= j < |keep| && 0 <= keep[j] < |top| && top[keep[j]] == x
    {
      PicksMembers(top, keep, x);
    }
  }
}
