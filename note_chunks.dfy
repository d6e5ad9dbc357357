/**
 * `_chunk_text`: a note body cut into passages for the vector store. Short
 * notes stay whole; longer ones are cut at blank lines, and a paragraph longer
 * than 500 characters is cut at sentence ends and packed greedily into chunks
 * of at most 500 characters. The two `re.split` calls are modelled exactly:
 * `\n\s*\n` for paragraphs and `(?<=[.!?])\s+` for sentences, with `\s` the
 * characters `str.isspace` accepts.
 */
module NoteChunks {
  import opened Wrappers
  import opened Text
  import opened Lists

  /** The chunk size the packing aims for. */
  const MaxChunk := 500

  /** Notes with fewer words than this stay one chunk. */
  const ShortNote := 100

  /** The number of whitespace characters starting at position `i`. */
  function SpaceRun(s: string, i: nat): (n: nat)
    requires i <= |s|
    ensures i + n <= |s|
    ensures forall k :: i <= k < i + n ==> IsSpace(s[k])
    ensures i + n < |s| ==> !IsSpace(s[i + n])
    ensures i < |s| && IsSpace(s[i]) ==> n >= 1
    decreases |s| - i
  {
    if i < |s| && IsSpace(s[i]) then 1 + SpaceRun(s, i + 1) else 0
  }

  /** The pieces of a split put back together with the separators that were cut out. */
  function Interleave(pieces: seq<string>, gaps: seq<string>): string
    requires |pieces| == |gaps| + 1
  {
    if gaps == [] then pieces[0] else pieces[0] + gaps[0] + Interleave(pieces[1..], gaps[1..])
  }

  // ---------------------------------------------------------------- sentences

  predicate SentenceEnd(c: char) {
    c == '.' || c == '!' || c == '?'
  }

  /** `(?<=[.!?])\s+` matches at `i`: whitespace right after a sentence end. */
  predicate SentenceBreakAt(s: string, i: nat) {
    1 <= i < |s| && SentenceEnd(s[i - 1]) && IsSpace(s[i])
  }

  /** The leftmost sentence break at or after `from`. */
  function FirstSentenceBreak(s: string, from: nat): (r: Option<nat>)
    ensures r.Some? ==> from <= r.value && SentenceBreakAt(s, r.value)
    ensures r.Some? ==> forall k :: from <= k < r.value ==> !SentenceBreakAt(s, k)
    ensures r.None? ==> forall k :: from <= k ==> !SentenceBreakAt(s, k)
    decreases |s| - from
  {
    if from >= |s| then None
    else if SentenceBreakAt(s, from) then Some(from)
    else FirstSentenceBreak(s, from + 1)
  }

  /** `re.split(r"(?<=[.!?])\s+", s)`. */
  function Sentences(s: string): (r: seq<string>)
    ensures r != []
    decreases |s|
  {
    match FirstSentenceBreak(s, 0)
    case None => [s]
    case Some(i) => [s[..i]] + Sentences(s[i + SpaceRun(s, i)..])
  }

  /** The whitespace runs `Sentences` cuts out, in order. */
  ghost function SentenceGaps(s: string): (r: seq<string>)
    decreases |s|
  {
    match FirstSentenceBreak(s, 0)
    case None => []
    case Some(i) => [s[i..i + SpaceRun(s, i)]] + SentenceGaps(s[i + SpaceRun(s, i)..])
  }

  /** The sentences and the whitespace runs between them give back the text. */
  lemma {:induction false} SentencesRejoin(s: string)
    ensures |Sentences(s)| == |SentenceGaps(s)| + 1
    ensures Interleave(Sentences(s), SentenceGaps(s)) == s
    decreases |s|
  {
    match FirstSentenceBreak(s, 0)
    case None =>
    case Some(i) =>
      var e := i + SpaceRun(s, i);
      var rest := s[e..];
      SentencesRejoin(rest);
      InterleaveCons(s[..i], s[i..e], Sentences(rest), SentenceGaps(rest));
      ThreeSlices(s, i, e);
  }

  /** Each of the runs is non-empty whitespace. */
  predicate AllBlankRuns(gaps: seq<string>) {
    forall k :: 0 <= k < |gaps| ==> gaps[k] != [] && IsBlank(gaps[k])
  }

  /** Every cut whitespace run is non-empty. */
  lemma {:induction false} SentenceGapsBlank(s: string)
    ensures AllBlankRuns(SentenceGaps(s))
    decreases |s|
  {
    match FirstSentenceBreak(s, 0)
    case None =>
    case Some(i) =>
      var e := i + SpaceRun(s, i);
      var rest := SentenceGaps(s[e..]);
      SentenceGapsBlank(s[e..]);
      var g := SentenceGaps(s);
      assert g == [s[i..e]] + rest;
      forall k | 0 <= k < |g| ensures g[k] != [] && IsBlank(g[k]) {
        if k > 0 {
          assert g[k] == rest[k - 1];
        }
      }
  }

  /** The piece ends with `.`, `!` or `?`. */
  predicate EndsSentence(x: string) {
    x != [] && SentenceEnd(x[|x| - 1])
  }

  /** Every piece but the last ends a sentence, and no piece holds a break. */
  predicate SentencePieces(r: seq<string>) {
    && (forall k :: 0 <= k < |r| - 1 ==> EndsSentence(r[k]))
    && (forall k :: 0 <= k < |r| ==> FirstSentenceBreak(r[k], 0).None?)
  }

  /** Every sentence but the last ends with `.`, `!` or `?`, and no sentence holds a break. */
  lemma {:induction false} SentencesEndAtBreaks(s: string)
    ensures SentencePieces(Sentences(s))
    decreases |s|
  {
    match FirstSentenceBreak(s, 0)
    case None =>
    case Some(i) =>
      var e := i + SpaceRun(s, i);
      var rest := Sentences(s[e..]);
      SentencesEndAtBreaks(s[e..]);
      NoBreakBefore(s, i);
      var r := Sentences(s);
      assert r == [s[..i]] + rest;
      assert EndsSentence(r[0]) by {
        assert SentenceBreakAt(s, i);
      }
      forall k | 1 <= k < |r| ensures r[k] == rest[k - 1] {
      }
  }

  /** The text before the first break holds no break. */
  lemma NoBreakBefore(s: string, i: nat)
    requires FirstSentenceBreak(s, 0) == Some(i)
    ensures FirstSentenceBreak(s[..i], 0).None?
  {
    var p := s[..i];
    var b := FirstSentenceBreak(p, 0);
    if b.Some? {
      assert SentenceBreakAt(s, b.value);
    }
  }

  /** Text without whitespace at either end splits into sentences that start and end with non-whitespace. */
  lemma {:induction false} SentencesOfStripped(s: string)
    requires s != [] && !IsSpace(s[0]) && !IsSpace(s[|s| - 1])
    ensures forall k :: 0 <= k < |Sentences(s)| ==>
      Sentences(s)[k] != [] && !IsSpace(Sentences(s)[k][0]) && !IsBlank(Sentences(s)[k])
    decreases |s|
  {
    match FirstSentenceBreak(s, 0)
    case None =>
    case Some(i) =>
      var e := i + SpaceRun(s, i);
      assert e < |s|;
      var rest := s[e..];
      SentencesOfStripped(rest);
      var r := Sentences(s);
      forall k | 0 <= k < |r| ensures r[k] != [] && !IsSpace(r[k][0]) && !IsBlank(r[k]) {
        if k == 0 {
          assert r[0] == s[..i] && r[0][0] == s[0];
        } else {
          assert r[k] == Sentences(rest)[k - 1];
        }
      }
  }

  lemma InterleaveCons(p: string, g: string, pieces: seq<string>, gaps: seq<string>)
    requires |pieces| == |gaps| + 1
    ensures Interleave([p] + pieces, [g] + gaps) == p + g + Interleave(pieces, gaps)
  {
    assert ([p] + pieces)[1..] == pieces;
    assert ([g] + gaps)[1..] == gaps;
  }

  lemma ThreeSlices(s: string, i: nat, e: nat)
    requires i <= e <= |s|
    ensures s == s[..i] + s[i..e] + s[e..]
  {
    assert s[..i] + s[i..e] == s[..e];
  }

  // --------------------------------------------------------------- paragraphs

  /** The last newline in `s[lo..hi]`. */
  function LastNewline(s: string, lo: nat, hi: nat): (r: Option<nat>)
    requires lo <= hi <= |s|
    ensures r.Some? ==> lo <= r.value < hi && s[r.value] == '\n'
    ensures r.Some? ==> forall k :: r.value < k < hi ==> s[k] != '\n'
    ensures r.None? ==> forall k :: lo <= k < hi ==> s[k] != '\n'
    decreases hi - lo
  {
    if hi <= lo then None
    else if s[hi - 1] == '\n' then Some(hi - 1)
    else LastNewline(s, lo, hi - 1)
  }

  /**
   * Where a match of `\n\s*\n` starting at `i` ends: the greedy `\s*` gives
   * back characters until a newline follows, so the match runs to the last
   * newline of the whitespace after `s[i]`.
   */
  function ParagraphBreakEnd(s: string, i: nat): (r: Option<nat>)
    requires i < |s|
    ensures r.Some? ==> i + 2 <= r.value <= |s| && s[i] == '\n' && s[r.value - 1] == '\n'
    ensures r.Some? ==> IsBlank(s[i..r.value])
  {
    if s[i] != '\n' then None
    else
      match LastNewline(s, i + 1, i + 1 + SpaceRun(s, i + 1))
      case None => None
      case Some(j) =>
        assert forall k :: i <= k < j + 1 ==> IsSpace(s[k]);
        Some(j + 1)
  }

  /** The leftmost paragraph break at or after `from`, as its start and end. */
  function FirstParagraphBreak(s: string, from: nat): (r: Option<(nat, nat)>)
    ensures r.Some? ==> from <= r.value.0 < |s| && ParagraphBreakEnd(s, r.value.0) == Some(r.value.1)
    ensures r.Some? ==> forall k :: from <= k < r.value.0 ==> ParagraphBreakEnd(s, k).None?
    ensures r.None? ==> forall k :: from <= k < |s| ==> ParagraphBreakEnd(s, k).None?
    decreases |s| - from
  {
    if from >= |s| then None
    else match ParagraphBreakEnd(s, from)
      case Some(e) => Some((from, e))
      case None => FirstParagraphBreak(s, from + 1)
  }

  /** `re.split(r"\n\s*\n", s)`. */
  function Paragraphs(s: string): (r: seq<string>)
    ensures r != []
    decreases |s|
  {
    match FirstParagraphBreak(s, 0)
    case None => [s]
    case Some((i, e)) => [s[..i]] + Paragraphs(s[e..])
  }

  /** The blank-line separators `Paragraphs` cuts out, in order. */
  ghost function ParagraphGaps(s: string): (r: seq<string>)
    decreases |s|
  {
    match FirstParagraphBreak(s, 0)
    case None => []
    case Some((i, e)) => [s[i..e]] + ParagraphGaps(s[e..])
  }

  /** The paragraphs and the separators between them give back the text. */
  lemma {:induction false} ParagraphsRejoin(s: string)
    ensures |Paragraphs(s)| == |ParagraphGaps(s)| + 1
    ensures Interleave(Paragraphs(s), ParagraphGaps(s)) == s
    decreases |s|
  {
    match FirstParagraphBreak(s, 0)
    case None =>
    case Some((i, e)) =>
      var rest := s[e..];
      ParagraphsRejoin(rest);
      InterleaveCons(s[..i], s[i..e], Paragraphs(rest), ParagraphGaps(rest));
      ThreeSlices(s, i, e);
  }

  /** Each separator is whitespace that starts and ends with a newline. */
  lemma {:induction false} ParagraphGapsBlank(s: string)
    ensures forall k :: 0 <= k < |ParagraphGaps(s)| ==> BlankLines(ParagraphGaps(s)[k])
    decreases |s|
  {
    match FirstParagraphBreak(s, 0)
    case None =>
    case Some((i, e)) =>
      var rest := s[e..];
      var h := ParagraphGaps(rest);
      ParagraphGapsBlank(rest);
      ParagraphGapsStep(s, i, e);
      BlankLinesCons(s[i..e], h);
  }

  lemma BlankLinesCons(g: string, h: seq<string>)
    requires BlankLines(g)
    requires forall k :: 0 <= k < |h| ==> BlankLines(h[k])
    ensures forall k :: 0 <= k < |[g] + h| ==> BlankLines(([g] + h)[k])
  {
    forall k | 0 <= k < |[g] + h| ensures BlankLines(([g] + h)[k]) {
      if k > 0 {
        assert ([g] + h)[k] == h[k - 1];
      }
    }
  }

  lemma ParagraphGapsStep(s: string, i: nat, e: nat)
    requires FirstParagraphBreak(s, 0) == Some((i, e))
    ensures ParagraphGaps(s) == [s[i..e]] + ParagraphGaps(s[e..])
  {
  }

  /** Whitespace that starts and ends with a newline. */
  predicate BlankLines(g: string) {
    |g| >= 2 && g[0] == '\n' && g[|g| - 1] == '\n' && IsBlank(g)
  }

  /** Pieces and separators that are all blank put together a blank text. */
  lemma {:induction false} InterleaveBlank(pieces: seq<string>, gaps: seq<string>)
    requires |pieces| == |gaps| + 1
    requires forall k :: 0 <= k < |pieces| ==> IsBlank(pieces[k])
    requires forall k :: 0 <= k < |gaps| ==> IsBlank(gaps[k])
    ensures IsBlank(Interleave(pieces, gaps))
  {
    if gaps != [] {
      InterleaveBlank(pieces[1..], gaps[1..]);
      var rest := Interleave(pieces[1..], gaps[1..]);
      var t := pieces[0] + gaps[0] + rest;
      forall c | 0 <= c < |t| ensures IsSpace(t[c]) {
        if c < |pieces[0]| {
          assert t[c] == pieces[0][c];
        } else if c < |pieces[0]| + |gaps[0]| {
          assert t[c] == gaps[0][c - |pieces[0]|];
        } else {
          assert t[c] == rest[c - |pieces[0]| - |gaps[0]|];
        }
      }
    }
  }

  /** A text that is not blank has a paragraph that is not blank. */
  lemma SomeParagraphNotBlank(s: string)
    requires !IsBlank(s)
    ensures exists k :: 0 <= k < |Paragraphs(s)| && !IsBlank(Paragraphs(s)[k])
  {
    ParagraphsRejoin(s);
    ParagraphGapsBlank(s);
    if forall k :: 0 <= k < |Paragraphs(s)| ==> IsBlank(Paragraphs(s)[k]) {
      InterleaveBlank(Paragraphs(s), ParagraphGaps(s));
    }
  }

  // ------------------------------------------------------------------ packing

  /** `buf` after appending each sentence and a space. */
  function Glue(g: seq<string>): (r: string)
    ensures g == [] <==> r == []
    ensures r != [] ==> r[|r| - 1] == ' '
  {
    if g == [] then "" else Glue(g[..|g| - 1]) + g[|g| - 1] + " "
  }

  /** The sentence groups already emitted as chunks, and the group still in `buf`. */
  datatype Packing = Packing(closed: seq<seq<string>>, open: seq<string>)

  /** The state of the packing loop after the given sentences. */
  function Pack(sentences: seq<string>): (p: Packing)
  {
    if sentences == [] then Packing([], [])
    else
      var p := Pack(sentences[..|sentences| - 1]);
      var sent := sentences[|sentences| - 1];
      if |Glue(p.open)| + |sent| > MaxChunk && Glue(p.open) != "" then Packing(p.closed + [p.open], [sent])
      else Packing(p.closed, p.open + [sent])
  }

  /** The chunk each group becomes: its glued text, stripped. */
  function GroupChunks(groups: seq<seq<string>>): (r: seq<string>)
    ensures |r| == |groups|
    ensures forall i :: 0 <= i < |groups| ==> r[i] == Strip(Glue(groups[i]))
  {
    seq(|groups|, i requires 0 <= i < |groups| => Strip(Glue(groups[i])))
  }

  /** The chunks a long paragraph's sentences become. */
  function PackedChunks(sentences: seq<string>): seq<string> {
    var p := Pack(sentences);
    GroupChunks(p.closed) + (if Strip(Glue(p.open)) != [] then [Strip(Glue(p.open))] else [])
  }

  /** All groups of a packing, the one still open last. */
  function Groups(sentences: seq<string>): seq<seq<string>> {
    Pack(sentences).closed + [Pack(sentences).open]
  }

  /** A group of two or more sentences fits: the text before its last sentence plus that sentence is at most 500 characters. */
  predicate Fits(g: seq<string>) {
    |g| >= 2 ==> |Glue(g[..|g| - 1])| + |g[|g| - 1]| <= MaxChunk
  }

  /** Each group was closed only because the next sentence would not fit. */
  ghost predicate Greedy(groups: seq<seq<string>>) {
    forall i, j :: 0 <= i < |groups| && j == i + 1 && j < |groups| ==> Overflows(groups[i], groups[j])
  }

  /** Adding the first sentence of `next` to `g` would pass 500 characters. */
  predicate Overflows(g: seq<string>, next: seq<string>) {
    next != [] && |Glue(g)| + |next[0]| > MaxChunk
  }

  /** Packing keeps the sentences in order and splits them into non-empty groups. */
  lemma PackPartition(sentences: seq<string>)
    ensures Flatten(Groups(sentences)) == sentences
    ensures sentences != [] ==> Pack(sentences).open != []
    ensures forall i :: 0 <= i < |Pack(sentences).closed| ==> Pack(sentences).closed[i] != []
  {
    PackFlatten(sentences);
    PackNonEmpty(sentences);
  }

  lemma {:induction false} PackNonEmpty(sentences: seq<string>)
    ensures sentences != [] ==> Pack(sentences).open != []
    ensures forall i :: 0 <= i < |Pack(sentences).closed| ==> Pack(sentences).closed[i] != []
  {
    if sentences != [] {
      var prev := sentences[..|sentences| - 1];
      PackNonEmpty(prev);
      var q := Pack(prev);
      var p := Pack(sentences);
      assert p.closed == q.closed || (p.closed == q.closed + [q.open] && prev != []);
      forall i | 0 <= i < |p.closed| ensures p.closed[i] != [] {
        if i < |q.closed| {
          assert p.closed[i] == q.closed[i];
        }
      }
    }
  }

  lemma {:induction false} PackFlatten(sentences: seq<string>)
    ensures Flatten(Groups(sentences)) == sentences
  {
    if sentences != [] {
      var prev := sentences[..|sentences| - 1];
      var sent := sentences[|sentences| - 1];
      PackFlatten(prev);
      var q := Pack(prev);
      var p := Pack(sentences);
      FlattenSnoc(q.closed, q.open);
      assert Flatten(q.closed) + q.open == prev;
      assert sentences == prev + [sent];
      if |Glue(q.open)| + |sent| > MaxChunk && Glue(q.open) != "" {
        assert p.closed == q.closed + [q.open] && p.open == [sent];
        FlattenSnoc(p.closed, p.open);
        assert Flatten(p.closed) == prev;
      } else {
        assert p.closed == q.closed && p.open == q.open + [sent];
        FlattenSnoc(q.closed, q.open + [sent]);
        assert Flatten(Groups(sentences)) == Flatten(q.closed) + (q.open + [sent]);
      }
    }
  }

  /** Every group fits. */
  lemma {:induction false} PackFits(sentences: seq<string>)
    ensures forall i :: 0 <= i < |Groups(sentences)| ==> Fits(Groups(sentences)[i])
  {
    if sentences != [] {
      var prev := sentences[..|sentences| - 1];
      var sent := sentences[|sentences| - 1];
      PackFits(prev);
      var q := Pack(prev);
      var p := Pack(sentences);
      if |Glue(q.open)| + |sent| > MaxChunk && Glue(q.open) != "" {
        assert Groups(sentences) == Groups(prev) + [[sent]];
      } else {
        assert (q.open + [sent])[..|q.open|] == q.open;
        assert Fits(p.open);
        assert Groups(sentences) == Groups(prev)[..|q.closed|] + [p.open];
      }
    }
  }

  /** A group was closed only when the next sentence would have overflowed it. */
  lemma {:induction false} PackGreedy(sentences: seq<string>)
    ensures Greedy(Groups(sentences))
  {
    if sentences != [] {
      var prev := sentences[..|sentences| - 1];
      var sent := sentences[|sentences| - 1];
      PackGreedy(prev);
      PackNonEmpty(prev);
      var q := Pack(prev);
      var p := Pack(sentences);
      var G := Groups(sentences);
      var H := Groups(prev);
      if |Glue(q.open)| + |sent| > MaxChunk && Glue(q.open) != "" {
        assert G == H + [[sent]];
        assert Overflows(H[|H| - 1], [sent]);
      } else {
        assert |G| == |H| && G[..|G| - 1] == H[..|H| - 1];
        forall i, j | 0 <= i && j == i + 1 && j < |G| ensures Overflows(G[i], G[j]) {
          assert G[i] == H[i];
          assert Overflows(H[i], H[j]);
          if j < |G| - 1 {
            assert G[j] == H[j];
          } else {
            assert H[j] == q.open != [];
            assert G[j][0] == H[j][0];
          }
        }
      }
    }
  }

  /** A stripped glued group is at most as long as the text before its final space. */
  lemma StripGlue(g: seq<string>)
    requires g != []
    ensures Strip(Glue(g)) == Strip(Glue(g[..|g| - 1]) + g[|g| - 1])
    ensures |Strip(Glue(g))| <= |Glue(g[..|g| - 1])| + |g[|g| - 1]|
  {
    StripSpaceSuffix(Glue(g[..|g| - 1]) + g[|g| - 1], " ");
  }

  /** A group starting with a non-blank sentence glues to non-blank text. */
  lemma {:induction false} GlueNotBlank(g: seq<string>)
    requires g != [] && !IsBlank(g[0])
    ensures !IsBlank(Glue(g))
  {
    var g' := g[..|g| - 1];
    var front := Glue(g');
    assert Glue(g) == front + g[|g| - 1] + " ";
    if g' == [] {
      assert front == [] && g[|g| - 1] == g[0];
      var c :| 0 <= c < |g[0]| && !IsSpace(g[0][c]);
      assert Glue(g)[c] == g[0][c];
    } else {
      assert g'[0] == g[0];
      GlueNotBlank(g');
      var c :| 0 <= c < |front| && !IsSpace(front[c]);
      assert Glue(g)[c] == front[c];
    }
  }

  /**
   * For non-blank sentences, `PackedChunks` has one chunk per group, each
   * non-blank, and a chunk of two or more sentences is at most 500 characters.
   */
  lemma PackedChunksOfSentences(sentences: seq<string>)
    requires sentences != []
    requires forall k :: 0 <= k < |sentences| ==> !IsBlank(sentences[k])
    ensures |PackedChunks(sentences)| == |Groups(sentences)|
    ensures forall i :: 0 <= i < |Groups(sentences)| ==> PackedChunks(sentences)[i] == Strip(Glue(Groups(sentences)[i]))
    ensures forall i :: 0 <= i < |Groups(sentences)| ==> !IsBlank(PackedChunks(sentences)[i])
    ensures forall i :: 0 <= i < |Groups(sentences)| && |Groups(sentences)[i]| >= 2 ==> |PackedChunks(sentences)[i]| <= MaxChunk
  {
    PackedChunksAreGroups(sentences);
    GroupsNotBlank(sentences);
    PackFits(sentences);
    var G := Groups(sentences);
    var chunks := PackedChunks(sentences);
    forall i | 0 <= i < |G| && |G[i]| >= 2 ensures |chunks[i]| <= MaxChunk {
      StripGlue(G[i]);
      assert Fits(G[i]);
    }
  }

  /** For non-blank sentences the open group is kept too, so the chunks are those of all groups. */
  lemma PackedChunksAreGroups(sentences: seq<string>)
    requires sentences != []
    requires forall k :: 0 <= k < |sentences| ==> !IsBlank(sentences[k])
    ensures PackedChunks(sentences) == GroupChunks(Groups(sentences))
  {
    GroupsNotBlank(sentences);
    var p := Pack(sentences);
    assert Groups(sentences)[|p.closed|] == p.open;
    assert Strip(Glue(p.open)) != [];
  }

  /** Every group of non-blank sentences glues to non-blank text. */
  lemma GroupsNotBlank(sentences: seq<string>)
    requires sentences != []
    requires forall k :: 0 <= k < |sentences| ==> !IsBlank(sentences[k])
    ensures forall i :: 0 <= i < |Groups(sentences)| ==> !IsBlank(Glue(Groups(sentences)[i]))
  {
    PackPartition(sentences);
    var G := Groups(sentences);
    forall i | 0 <= i < |G| ensures !IsBlank(Glue(G[i])) {
      assert G[i] != [];
      FlattenMember(G, i);
      assert G[i][0] in sentences;
      GlueNotBlank(G[i]);
    }
  }

  lemma PackStep(sentences: seq<string>, i: nat)
    requires i < |sentences|
    ensures var q := Pack(sentences[..i]);
      var sent := sentences[i];
      Pack(sentences[..i + 1]) ==
        if |Glue(q.open)| + |sent| > MaxChunk && Glue(q.open) != "" then Packing(q.closed + [q.open], [sent])
        else Packing(q.closed, q.open + [sent])
  {
    assert sentences[..i + 1][..i] == sentences[..i];
  }

  lemma GroupChunksSnoc(groups: seq<seq<string>>, g: seq<string>)
    ensures GroupChunks(groups + [g]) == GroupChunks(groups) + [Strip(Glue(g))]
  {
  }

  lemma GlueSnoc(g: seq<string>, sent: string)
    ensures Glue(g + [sent]) == Glue(g) + sent + " "
  {
    assert (g + [sent])[..|g|] == g;
  }

  /** The packing loop of `_chunk_text` over one long paragraph's sentences. */
  method PackSentences(sentences: seq<string>) returns (chunks: seq<string>)
    ensures chunks == PackedChunks(sentences)
  {
    chunks := [];
    var buf := "";
    ghost var p := Packing([], []);
    for i := 0 to |sentences|
      invariant p == Pack(sentences[..i])
      invariant buf == Glue(p.open)
      invariant chunks == GroupChunks(p.closed)
    {
      var sent := sentences[i];
      PackStep(sentences, i);
      if |buf| + |sent| > MaxChunk && buf != "" {
        GroupChunksSnoc(p.closed, p.open);
        chunks := chunks + [Strip(buf)];
        buf := "";
        p := Packing(p.closed + [p.open], []);
      }
      GlueSnoc(p.open, sent);
      buf := buf + sent + " ";
      p := Packing(p.closed, p.open + [sent]);
    }
    assert sentences[..|sentences|] == sentences;
    if Strip(buf) != [] {
      chunks := chunks + [Strip(buf)];
    }
  }

  // ------------------------------------------------------------------ chunking

  /** The chunks the loop over paragraphs collects. */
  function ParagraphChunks(paragraphs: seq<string>): seq<string> {
    if paragraphs == [] then []
    else ParagraphChunks(paragraphs[..|paragraphs| - 1]) + OneParagraph(paragraphs[|paragraphs| - 1])
  }

  /** The chunks of one paragraph: none when blank, itself stripped when short, its packed sentences when long. */
  function OneParagraph(paragraph: string): seq<string> {
    var para := Strip(paragraph);
    if para == [] then []
    else if |para| <= MaxChunk then [para]
    else PackedChunks(Sentences(para))
  }

  /** `_chunk_text(text)`. */
  function TextChunks(text: string): seq<string> {
    var t := Strip(text);
    if t == [] then []
    else if |Words(t)| < ShortNote then [t]
    else
      var chunks := ParagraphChunks(Paragraphs(t));
      if chunks == [] then [t] else chunks
  }

  /** `_chunk_text`: strip, keep short notes whole, else chunk paragraph by paragraph. */
  method ChunkText(text: string) returns (chunks: seq<string>)
    ensures chunks == TextChunks(text)
  {
    var t := Strip(text);
    if t == [] {
      return [];
    }
    if |Words(t)| < ShortNote {
      return [t];
    }
    chunks := ChunkParagraphs(Paragraphs(t));
    if chunks == [] {
      chunks := [t];
    }
  }

  /** The paragraph loop of `_chunk_text`: each paragraph's chunks, in order. */
  method ChunkParagraphs(paragraphs: seq<string>) returns (chunks: seq<string>)
    ensures chunks == ParagraphChunks(paragraphs)
  {
    chunks := [];
    for k := 0 to |paragraphs|
      invariant chunks == ParagraphChunks(paragraphs[..k])
    {
      assert paragraphs[..k + 1][..k] == paragraphs[..k];
      ParagraphChunksSnoc(paragraphs[..k + 1]);
      chunks := AddParagraph(chunks, paragraphs[k]);
    }
    assert paragraphs[..|paragraphs|] == paragraphs;
  }

  /** One pass of the paragraph loop: the paragraph's chunks go after those collected so far. */
  method AddParagraph(chunks: seq<string>, paragraph: string) returns (r: seq<string>)
    ensures r == chunks + OneParagraph(paragraph)
  {
    var para := Strip(paragraph);
    if para == [] {
      return chunks;
    }
    if |para| <= MaxChunk {
      return chunks + [para];
    }
    var packed := PackSentences(Sentences(para));
    return chunks + packed;
  }

  /** No whitespace at either end, and not empty. */
  predicate Trimmed(c: string) {
    c != [] && !IsSpace(c[0]) && !IsSpace(c[|c| - 1])
  }

  /** What every chunk of a long note is: trimmed, and at most 500 characters unless it is a single sentence. */
  predicate GoodChunk(c: string) {
    Trimmed(c) && (|c| <= MaxChunk || FirstSentenceBreak(c, 0).None?)
  }

  /** The chunks of a paragraph longer than 500 characters are good. */
  lemma LongParagraphChunks(para: string)
    requires Trimmed(para)
    ensures PackedChunks(Sentences(para)) != []
    ensures forall c :: c in PackedChunks(Sentences(para)) ==> GoodChunk(c)
  {
    var sentences := Sentences(para);
    SentencesOfStripped(para);
    PackedChunksOfSentences(sentences);
    var chunks := PackedChunks(sentences);
    forall i | 0 <= i < |chunks| ensures GoodChunk(chunks[i]) {
      GroupChunkGood(para, i);
    }
  }

  /** The chunk of one group of a trimmed paragraph's sentences is good. */
  lemma GroupChunkGood(para: string, i: nat)
    requires Trimmed(para)
    requires i < |Groups(Sentences(para))|
    ensures GoodChunk(Strip(Glue(Groups(Sentences(para))[i])))
  {
    var sentences := Sentences(para);
    var G := Groups(sentences);
    var chunk := Strip(Glue(G[i]));
    assert G[i] != [] && !IsBlank(Glue(G[i])) by {
      SentencesOfStripped(para);
      GroupsNotBlank(sentences);
      PackPartition(sentences);
    }
    if |G[i]| >= 2 {
      assert |chunk| <= MaxChunk by {
        StripGlue(G[i]);
        PackFits(sentences);
        assert Fits(G[i]);
      }
    } else {
      SingletonGroupChunk(para, i);
    }
  }

  /** A group of one sentence of a trimmed paragraph gives that sentence, which is a good chunk. */
  lemma SingletonGroupChunk(para: string, i: nat)
    requires Trimmed(para)
    requires i < |Groups(Sentences(para))| && |Groups(Sentences(para))[i]| == 1
    ensures GoodChunk(Strip(Glue(Groups(Sentences(para))[i])))
  {
    var sentences := Sentences(para);
    var G := Groups(sentences);
    var sent := G[i][0];
    assert sent in sentences by {
      assert sent in G[i];
      PackPartition(sentences);
      FlattenMember(G, i);
    }
    var k :| 0 <= k < |sentences| && sentences[k] == sent;
    SentenceTrimmed(para, k);
    assert G[i] == [sent];
    SingleSentenceChunk(sent);
  }

  /** A trimmed sentence alone in its group is its own chunk. */
  lemma SingleSentenceChunk(sent: string)
    requires Trimmed(sent)
    ensures Strip(Glue([sent])) == sent
  {
    assert Glue([sent]) == sent + " " by {
      assert [sent][..0] == [];
    }
    StripSpaceSuffix(sent, " ");
    StripTrimmed(sent);
  }

  function Last<T>(xs: seq<T>): T
    requires xs != []
  {
    xs[|xs| - 1]
  }

  /** A sentence of a trimmed paragraph is trimmed. */
  lemma SentenceTrimmed(para: string, k: nat)
    requires Trimmed(para) && k < |Sentences(para)|
    ensures Trimmed(Sentences(para)[k])
    ensures FirstSentenceBreak(Sentences(para)[k], 0).None?
  {
    SentencesOfStripped(para);
    SentencesEndAtBreaks(para);
    SentencesLastEnds(para);
  }

  /** The last sentence of a text ends where the text ends. */
  lemma {:induction false} SentencesLastEnds(s: string)
    ensures |Last(Sentences(s))| <= |s|
    ensures Last(Sentences(s)) == s[|s| - |Last(Sentences(s))|..]
    decreases |s|
  {
    match FirstSentenceBreak(s, 0)
    case None =>
    case Some(i) =>
      var e := i + SpaceRun(s, i);
      var rest := s[e..];
      var rr := Sentences(rest);
      SentencesLastEnds(rest);
      assert Sentences(s) == [s[..i]] + rr;
      assert Last(Sentences(s)) == Last(rr);
      SuffixOfSuffix(s, e, |Last(rr)|);
  }

  lemma SuffixOfSuffix(s: string, e: nat, m: nat)
    requires e + m <= |s|
    ensures s[e..][|s| - e - m..] == s[|s| - m..]
  {
  }


  /** A paragraph yields chunks exactly when it is not blank, and they are good. */
  lemma OneParagraphGood(paragraph: string)
    ensures OneParagraph(paragraph) == [] <==> IsBlank(paragraph)
    ensures forall c :: c in OneParagraph(paragraph) ==> GoodChunk(c)
  {
    var para := Strip(paragraph);
    if para != [] && |para| > MaxChunk {
      LongParagraphChunks(para);
    }
  }

  /** Every chunk the paragraph loop collects is good. */
  lemma {:induction false} ParagraphChunksGood(paragraphs: seq<string>)
    ensures forall c :: c in ParagraphChunks(paragraphs) ==> GoodChunk(c)
  {
    if paragraphs != [] {
      ParagraphChunksGood(paragraphs[..|paragraphs| - 1]);
      OneParagraphGood(paragraphs[|paragraphs| - 1]);
    }
  }

  /** A paragraph that is not blank yields at least one chunk. */
  lemma ParagraphChunksNotEmpty(paragraphs: seq<string>, k: nat)
    requires k < |paragraphs| && !IsBlank(paragraphs[k])
    ensures ParagraphChunks(paragraphs) != []
  {
    ParagraphChunksCover(paragraphs, k);
    OneParagraphNotEmpty(paragraphs[k]);
  }

  /** The paragraph loop collects at least as many chunks as any one paragraph yields. */
  lemma {:induction false} ParagraphChunksCover(paragraphs: seq<string>, k: nat)
    requires k < |paragraphs|
    ensures |OneParagraph(paragraphs[k])| <= |ParagraphChunks(paragraphs)|
    decreases |paragraphs|
  {
    var n := |paragraphs| - 1;
    ParagraphChunksSnoc(paragraphs);
    if k != n {
      var prev := paragraphs[..n];
      assert prev[k] == paragraphs[k];
      ParagraphChunksCover(prev, k);
    }
  }

  lemma ParagraphChunksSnoc(paragraphs: seq<string>)
    requires paragraphs != []
    ensures ParagraphChunks(paragraphs) == ParagraphChunks(paragraphs[..|paragraphs| - 1]) + OneParagraph(paragraphs[|paragraphs| - 1])
  {
  }

  /** A paragraph that is not blank yields a chunk. */
  lemma OneParagraphNotEmpty(paragraph: string)
    requires !IsBlank(paragraph)
    ensures OneParagraph(paragraph) != []
  {
    var para := Strip(paragraph);
    if |para| > MaxChunk {
      LongParagraphChunks(para);
    }
  }

  /**
   * `_chunk_text` returns nothing exactly for a blank body and the stripped
   * body alone for a note of fewer than 100 words. A longer note always has a
   * non-blank paragraph, so its chunks come from the paragraph loop and the
   * `[text]` fallback is never taken; every such chunk is trimmed and at most
   * 500 characters unless it is a single sentence.
   */
  lemma TextChunksFacts(text: string)
    ensures TextChunks(text) == [] <==> IsBlank(text)
    ensures forall c :: c in TextChunks(text) ==> Trimmed(c)
    ensures !IsBlank(text) && |Words(Strip(text))| < ShortNote ==> TextChunks(text) == [Strip(text)]
    ensures |Words(Strip(text))| >= ShortNote ==>
      && TextChunks(text) == ParagraphChunks(Paragraphs(Strip(text)))
      && forall c :: c in TextChunks(text) ==> GoodChunk(c)
  {
    var t := Strip(text);
    if |Words(t)| >= ShortNote {
      WordsEmptyIffBlank(t);
      SomeParagraphNotBlank(t);
      var k :| 0 <= k < |Paragraphs(t)| && !IsBlank(Paragraphs(t)[k]);
      ParagraphChunksNotEmpty(Paragraphs(t), k);
      ParagraphChunksGood(Paragraphs(t));
    }
  }
}
