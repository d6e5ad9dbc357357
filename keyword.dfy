/**
 * `_extract_keyword`: one evocative word of a commit message, at most 12
 * characters. A capitalised word after the first one is preferred (joined to a
 * preceding place prefix such as "San"); otherwise the last word that is not a
 * common verb or article; otherwise the last word; `"?"` for a blank message.
 * Case tests and folding cover ASCII letters.
 */
module Keyword {
  import opened Wrappers
  import opened Text

  /** Common verbs, articles and git words that never make a keyword. */
  const Skip: set<string> := {
    "start", "begin", "add", "end", "move", "complete", "return",
    "get", "make", "update", "merge", "initialize", "close",
    "open", "set", "run", "the", "a", "an", "to", "in", "of",
    "and", "for", "from", "with", "at", "on", "into", "after",
    "branch", "commit", "first", "new", "back"}

  /** Short words that usually begin a place name. */
  const Prefixes: set<string> := {"san", "new", "north", "south", "east", "west", "los", "el", "st"}

  /** Punctuation removed from both ends of a word. */
  const Punctuation: set<char> := {'.', ',', ';', ':', '!', '?', '\'', '"', '(', ')'}

  /** A word without its surrounding punctuation and without a trailing possessive `'s`. */
  function Clean(w: string): (r: string)
    ensures |r| <= |w|
  {
    var s := StripChars(w, Punctuation);
    if |s| >= 2 && s[|s| - 2..] == "'s" then s[..|s| - 2] else s
  }

  /** `s[0:1].isupper()`: the string starts with a capital letter. */
  predicate StartsUpper(s: string) {
    s != [] && IsUpper(s[0])
  }

  /** The word at `idx` is taken by the capitalised pass. */
  predicate Qualifies(words: seq<string>, idx: nat)
    requires idx < |words|
  {
    var clean := Clean(words[idx]);
    && StartsUpper(clean)
    && Lower(clean) !in Skip
    && !(Lower(clean) in Prefixes && idx + 1 < |words| && StartsUpper(Clean(words[idx + 1])))
  }

  /** The cleaned, lower-cased word is a skip word. */
  predicate Skipped(w: string) {
    Lower(Clean(w)) in Skip
  }

  /** The first position in `[lo, hi)` satisfying `p`: a search loop with an early return. */
  function FirstWhere(p: nat -> bool, lo: nat, hi: nat): (r: Option<nat>)
    ensures r.Some? ==> lo <= r.value < hi && p(r.value)
    ensures r.Some? ==> forall j: nat :: lo <= j < r.value ==> !p(j)
    ensures r.None? ==> forall j: nat :: lo <= j < hi ==> !p(j)
    decreases hi - lo
  {
    if lo >= hi then None
    else if p(lo) then Some(lo)
    else FirstWhere(p, lo + 1, hi)
  }

  /** The last position below `upTo` satisfying `p`: a backwards search loop with an early return. */
  function LastWhere(p: nat -> bool, upTo: nat): (r: Option<nat>)
    ensures r.Some? ==> r.value < upTo && p(r.value)
    ensures r.Some? ==> forall j: nat :: r.value < j < upTo ==> !p(j)
    ensures r.None? ==> forall j: nat :: j < upTo ==> !p(j)
  {
    if upTo == 0 then None
    else if p(upTo - 1) then Some(upTo - 1)
    else LastWhere(p, upTo - 1)
  }

  /** A position satisfying `p`, with none before it from `lo` on, is what the forward search finds. */
  lemma FirstWhereFinds(p: nat -> bool, lo: nat, hi: nat, k: nat)
    requires lo <= k < hi && p(k)
    requires forall j: nat :: lo <= j < k ==> !p(j)
    ensures FirstWhere(p, lo, hi) == Some(k)
  {
  }

  /** A position satisfying `p`, with none after it below `upTo`, is what the backward search finds. */
  lemma LastWhereFinds(p: nat -> bool, upTo: nat, k: nat)
    requires k < upTo && p(k)
    requires forall j: nat :: k < j < upTo ==> !p(j)
    ensures LastWhere(p, upTo) == Some(k)
  {
  }

  /** The test of the capitalised pass, position by position. */
  function QualifyTest(words: seq<string>): nat -> bool {
    (j: nat) => j < |words| && Qualifies(words, j)
  }

  /** The test of the fallback pass, position by position. */
  function KeepTest(words: seq<string>): nat -> bool {
    (j: nat) => j < |words| && !Skipped(words[j])
  }

  /** The first position from 1 on whose word the capitalised pass takes. */
  function FirstQualifying(words: seq<string>): Option<nat> {
    FirstWhere(QualifyTest(words), 1, |words|)
  }

  /** The last position whose cleaned word is not a skip word. */
  function LastNotSkipped(words: seq<string>): Option<nat> {
    LastWhere(KeepTest(words), |words|)
  }

  /** The keyword built from the qualifying word at `idx`, with the preceding word when that one is a place prefix. */
  function Pick(words: seq<string>, idx: nat): string
    requires 1 <= idx < |words|
  {
    var clean := Clean(words[idx]);
    var before := Clean(words[idx - 1]);
    if Lower(before) in Prefixes then Take(before + " " + clean, 12) else Take(clean, 12)
  }

  /** The keyword `_extract_keyword` picks for a message. */
  function KeywordOfMessage(msg: string): (r: string)
    ensures |r| <= 12
  {
    KeywordOf(Words(msg))
  }

  /** The qualifying test of the capitalised pass, with its `continue`s. */
  method Qualify(words: seq<string>, idx: nat) returns (b: bool)
    requires idx < |words|
    ensures b == QualifyTest(words)(idx)
  {
    var clean := Clean(words[idx]);
    if clean == [] || !IsUpper(clean[0]) {
      return false;
    }
    var lower := Lower(clean);
    if lower in Skip {
      return false;
    }
    if lower in Prefixes && idx + 1 < |words| && StartsUpper(Clean(words[idx + 1])) {
      return false;
    }
    return true;
  }

  /** The fallback test, with its `not in SKIP`. */
  method Keep(words: seq<string>, i: nat) returns (b: bool)
    requires i < |words|
    ensures b == KeepTest(words)(i)
  {
    var clean := Clean(words[i]);
    return Lower(clean) !in Skip;
  }

  /** The capitalised pass: the first qualifying position from 1 on, if any. */
  method CapitalPass(words: seq<string>) returns (found: Option<nat>)
    ensures found == FirstQualifying(words)
  {
    var idx := 1;
    while idx < |words|
      invariant idx >= 1
      invariant forall j: nat :: 1 <= j < idx && j < |words| ==> !QualifyTest(words)(j)
      decreases |words| - idx
    {
      var b := Qualify(words, idx);
      if b {
        FirstWhereFinds(QualifyTest(words), 1, |words|, idx);
        return Some(idx);
      }
      idx := idx + 1;
    }
    return None;
  }

  /** The fallback pass over the words in reverse: the last position whose word is not a skip word, if any. */
  method FallbackPass(words: seq<string>) returns (found: Option<nat>)
    ensures found == LastNotSkipped(words)
  {
    var i := |words|;
    while i > 0
      invariant i <= |words|
      invariant forall j: nat :: i <= j < |words| ==> !KeepTest(words)(j)
    {
      i := i - 1;
      var b := Keep(words, i);
      if b {
        LastWhereFinds(KeepTest(words), |words|, i);
        return Some(i);
      }
    }
    return None;
  }

  /** `_extract_keyword(msg)`. */
  method ExtractKeyword(msg: string) returns (r: string)
    ensures r == KeywordOfMessage(msg)
  {
    var words := Words(msg);
    var first := CapitalPass(words);
    if first.Some? {
      return Pick(words, first.value);
    }
    var last := FallbackPass(words);
    if last.Some? {
      return Take(Clean(words[last.value]), 12);
    }
    r := if words != [] then Take(words[|words| - 1], 12) else "?";
  }

  /** The keyword of the whitespace-separated words of a message. */
  function KeywordOf(words: seq<string>): (r: string)
    ensures |r| <= 12
  {
    match FirstQualifying(words)
    case Some(idx) => Pick(words, idx)
    case None =>
      match LastNotSkipped(words)
      case Some(j) => Take(Clean(words[j]), 12)
      case None => if words != [] then Take(words[|words| - 1], 12) else "?"
  }

  /** Cleaning never leaves a question mark at either end. */
  lemma CleanNeverQuestionMark(w: string)
    ensures Clean(w) != "?"
  {
    var s := StripChars(w, Punctuation);
    assert s != [] ==> s[0] !in Punctuation;
  }

  /** The keyword is `"?"` exactly when the message is blank. */
  lemma KeywordQuestionMarkIffBlank(msg: string)
    ensures KeywordOfMessage(msg) == "?" <==> IsBlank(msg)
  {
    WordsEmptyIffBlank(msg);
    KeywordOfQuestionMark(Words(msg));
  }

  /** Of non-empty words, the keyword is `"?"` only when there are none. */
  lemma KeywordOfQuestionMark(words: seq<string>)
    requires forall k :: 0 <= k < |words| ==> words[k] != []
    ensures KeywordOf(words) == "?" <==> words == []
  {
    if words != [] {
      match FirstQualifying(words)
      case Some(idx) =>
        var clean := Clean(words[idx]);
        assert StartsUpper(clean);
        assert Take(clean, 12) != [] && Take(clean, 12)[0] == clean[0];
        var before := Clean(words[idx - 1]);
        assert Lower(before) in Prefixes ==> |before + " " + clean| >= 2 && |Take(before + " " + clean, 12)| >= 2;
      case None =>
        match LastNotSkipped(words)
        case Some(j) =>
          CleanNeverQuestionMark(words[j]);
          var c := Clean(words[j]);
          assert |c| > 12 ==> |Take(c, 12)| == 12;
          assert |c| <= 12 ==> Take(c, 12) == c;
        case None =>
          var last := words[|words| - 1];
          assert Skipped(last);
          assert last == "?" ==> StripChars(last, Punctuation) == [];
          assert |last| > 12 ==> |Take(last, 12)| == 12;
    }
  }

  /** The first capitalised word after the first one that qualifies gives the keyword, joined to a preceding place prefix. */
  lemma KeywordFromCapital(words: seq<string>, idx: nat)
    requires 1 <= idx < |words| && Qualifies(words, idx)
    requires forall j :: 1 <= j < idx ==> !Qualifies(words, j)
    ensures KeywordOf(words) == Pick(words, idx)
  {
    var p := QualifyTest(words);
    forall j: nat | 1 <= j < idx ensures !p(j) {
    }
    FirstWhereFinds(p, 1, |words|, idx);
  }

  /** Without a qualifying capitalised word, the last word that is not a skip word gives the keyword. */
  lemma KeywordFromFallback(words: seq<string>, j: nat)
    requires forall idx :: 1 <= idx < |words| ==> !Qualifies(words, idx)
    requires j < |words| && !Skipped(words[j])
    requires forall i :: j < i < |words| ==> Skipped(words[i])
    ensures KeywordOf(words) == Take(Clean(words[j]), 12)
  {
    var p := KeepTest(words);
    forall i: nat | j < i < |words| ensures !p(i) {
    }
    LastWhereFinds(p, |words|, j);
    NoneQualify(words);
  }

  /** Without a qualifying capitalised word the capitalised pass finds nothing. */
  lemma NoneQualify(words: seq<string>)
    requires forall idx :: 1 <= idx < |words| ==> !Qualifies(words, idx)
    ensures FirstQualifying(words).None?
  {
    var p := QualifyTest(words);
    assert forall j: nat :: 1 <= j < |words| ==> !p(j);
  }

  /** When every word is a skip word, the last word itself, uncleaned, gives the keyword. */
  lemma KeywordLastWord(words: seq<string>)
    requires words != []
    requires forall idx :: 1 <= idx < |words| ==> !Qualifies(words, idx)
    requires forall j :: 0 <= j < |words| ==> Skipped(words[j])
    ensures KeywordOf(words) == Take(words[|words| - 1], 12)
  {
    NoneQualify(words);
    var p := KeepTest(words);
    assert forall j: nat :: j < |words| ==> !p(j);
  }
}
