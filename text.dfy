/**
 * The few pieces of Python's `str` behaviour the model relies on: whitespace as
 * `str.isspace` defines it, `split()` with no separator, `strip()`, slicing with
 * `[:n]`, and case tests and folding restricted to ASCII letters.
 */
module Text {

  /** Python's `str.isspace` for one character (the full list of code points it accepts). */
  predicate IsSpace(c: char) {
    var n := c as int;
    (9 <= n <= 13) || (28 <= n <= 32) || n == 0x85 || n == 0xA0 || n == 0x1680
    || (0x2000 <= n <= 0x200A) || n == 0x2028 || n == 0x2029 || n == 0x202F
    || n == 0x205F || n == 0x3000
  }

  /** A string that is empty or made of whitespace only: Python's `not s.strip()`. */
  predicate IsBlank(s: string) {
    forall i :: 0 <= i < |s| ==> IsSpace(s[i])
  }

  /** `s[:n]`: the first `n` characters, or all of `s` when it is shorter. */
  function Take<T>(s: seq<T>, n: nat): (r: seq<T>)
    ensures |r| <= n && |r| <= |s|
    ensures |s| <= n ==> r == s
    ensures n <= |s| ==> |r| == n
    ensures r <= s
  {
    if |s| <= n then s else s[..n]
  }

  /** Number of leading whitespace characters. */
  function LeadingSpaces(s: string): (k: nat)
    ensures k <= |s|
    ensures forall i :: 0 <= i < k ==> IsSpace(s[i])
    ensures k < |s| ==> !IsSpace(s[k])
  {
    if s == [] || !IsSpace(s[0]) then 0 else 1 + LeadingSpaces(s[1..])
  }

  /** Number of trailing whitespace characters. */
  function TrailingSpaces(s: string): (k: nat)
    ensures k <= |s|
    ensures forall i :: |s| - k <= i < |s| ==> IsSpace(s[i])
    ensures k < |s| ==> !IsSpace(s[|s| - 1 - k])
  {
    if s == [] || !IsSpace(s[|s| - 1]) then 0 else 1 + TrailingSpaces(s[..|s| - 1])
  }

  /** Python's `s.strip()`: `s` without its leading and trailing whitespace. */
  function Strip(s: string): (r: string)
    ensures |r| <= |s|
    ensures r == [] <==> IsBlank(s)
    ensures r != [] ==> !IsSpace(r[0]) && !IsSpace(r[|r| - 1])
    ensures LeadingSpaces(s) + |r| <= |s| && r == s[LeadingSpaces(s)..LeadingSpaces(s) + |r|]
  {
    var a := LeadingSpaces(s);
    var front := s[a..];
    var r := front[..|front| - TrailingSpaces(front)];
    assert r == s[a..a + |r|];
    StripKeepsNonSpace(s);
    assert IsBlank(s) ==> a == |s|;
    r
  }

  /** A string with no whitespace at either end is its own strip. */
  lemma StripTrimmed(s: string)
    requires s != [] && !IsSpace(s[0]) && !IsSpace(s[|s| - 1])
    ensures Strip(s) == s
  {
    assert LeadingSpaces(s) == 0;
    assert s[0..] == s;
  }

  /** A string with a non-whitespace character keeps one after trimming. */
  lemma StripKeepsNonSpace(s: string)
    ensures var front := s[LeadingSpaces(s)..];
            !IsBlank(s) ==> |front| - TrailingSpaces(front) > 0
  {
    var a := LeadingSpaces(s);
    var front := s[a..];
    if !IsBlank(s) {
      var j :| 0 <= j < |s| && !IsSpace(s[j]);
      assert a <= j;
      assert !IsSpace(front[j - a]);
    }
  }

  /** Appending whitespace never lengthens the stripped string. */
  lemma StripSpaceSuffix(s: string, tail: string)
    requires IsBlank(tail)
    ensures Strip(s + tail) == Strip(s)
  {
    var t := s + tail;
    var a := LeadingSpaces(s);
    if a < |s| {
      LeadingOfNonBlankPrefix(s, tail);
      var fs, ft := s[a..], t[a..];
      assert ft == fs + tail;
      TrailingOfBlankSuffix(fs, tail);
      var m := |fs| - TrailingSpaces(fs);
      assert |ft| - TrailingSpaces(ft) == m;
      assert ft[..m] == fs[..m];
    } else {
      BlankAppend(s, tail);
    }
  }

  lemma LeadingOfNonBlankPrefix(s: string, tail: string)
    requires LeadingSpaces(s) < |s|
    ensures LeadingSpaces(s + tail) == LeadingSpaces(s)
  {
    var t, a := s + tail, LeadingSpaces(s);
    assert t[a] == s[a];
    forall i | 0 <= i < a ensures IsSpace(t[i]) {
      assert t[i] == s[i];
    }
    LeadingSpacesAt(t, a);
  }

  /** The leading run ends at the first non-whitespace character. */
  lemma {:induction false} LeadingSpacesAt(s: string, a: nat)
    requires a < |s| && !IsSpace(s[a]) && forall i :: 0 <= i < a ==> IsSpace(s[i])
    ensures LeadingSpaces(s) == a
  {
    if a > 0 {
      LeadingSpacesAt(s[1..], a - 1);
    }
  }

  lemma BlankAppend(s: string, tail: string)
    requires IsBlank(s) && IsBlank(tail)
    ensures IsBlank(s + tail)
  {
    var t := s + tail;
    forall i | 0 <= i < |t| ensures IsSpace(t[i]) {
      if i < |s| {
        assert t[i] == s[i];
      } else {
        assert t[i] == tail[i - |s|];
      }
    }
  }

  lemma {:induction false} TrailingOfBlankSuffix(s: string, tail: string)
    requires IsBlank(tail) && s != [] && !IsSpace(s[0])
    ensures TrailingSpaces(s + tail) == TrailingSpaces(s) + |tail|
    decreases |tail|
  {
    if tail == [] {
      assert s + tail == s;
    } else {
      var t := s + tail;
      var shorter := tail[..|tail| - 1];
      assert t[..|t| - 1] == s + shorter;
      assert IsSpace(t[|t| - 1]);
      TrailingOfBlankSuffix(s, shorter);
    }
  }

  /** Length of the word at the front of `s` (the run of non-whitespace characters). */
  function WordLength(s: string): (n: nat)
    ensures n <= |s|
    ensures forall i :: 0 <= i < n ==> !IsSpace(s[i])
    ensures n < |s| ==> IsSpace(s[n])
  {
    if s == [] || IsSpace(s[0]) then 0 else 1 + WordLength(s[1..])
  }

  /** Python's `s.split()` with no separator: the maximal runs of non-whitespace, in order. */
  function Words(s: string): (ws: seq<string>)
    ensures forall k :: 0 <= k < |ws| ==> ws[k] != [] && !IsBlank(ws[k])
    decreases |s|
  {
    if s == [] then []
    else if IsSpace(s[0]) then Words(s[1..])
    else
      var n := WordLength(s);
      [s[..n]] + Words(s[n..])
  }

  /** `split()` yields nothing exactly for a blank string. */
  lemma {:induction false} WordsEmptyIffBlank(s: string)
    ensures Words(s) == [] <==> IsBlank(s)
    decreases |s|
  {
    if s != [] && IsSpace(s[0]) {
      WordsEmptyIffBlank(s[1..]);
      if IsBlank(s[1..]) {
        forall i | 0 <= i < |s| ensures IsSpace(s[i]) { if i > 0 { assert s[i] == s[1..][i - 1]; } }
      }
    }
  }

  /** ASCII case folding, the part of `str.lower()` the model covers. */
  function LowerChar(c: char): (d: char)
    ensures 'A' <= c <= 'Z' ==> 'a' <= d <= 'z'
    ensures !('A' <= c <= 'Z') ==> d == c
  {
    if 'A' <= c <= 'Z' then (c as int + 32) as char else c
  }

  function Lower(s: string): (r: string)
    ensures |r| == |s|
    ensures forall i :: 0 <= i < |s| ==> r[i] == LowerChar(s[i])
  {
    seq(|s|, i requires 0 <= i < |s| => LowerChar(s[i]))
  }

  /** `c.isupper()` for one character, on ASCII letters. */
  predicate IsUpper(c: char) {
    'A' <= c <= 'Z'
  }

  /** Python's `s.strip(chars)`: drop characters of `cs` at both ends. */
  function StripChars(s: string, cs: set<char>): (r: string)
    ensures |r| <= |s|
    ensures r != [] ==> r[0] !in cs && r[|r| - 1] !in cs
    decreases |s|
  {
    if s == [] then []
    else if s[0] in cs then StripChars(s[1..], cs)
    else if s[|s| - 1] in cs then StripChars(s[..|s| - 1], cs)
    else s
  }

  /** `sep.join(parts)`. */
  function Join(parts: seq<string>, sep: string): (r: string)
    ensures parts == [] ==> r == ""
    ensures |parts| == 1 ==> r == parts[0]
    ensures parts != [] ==> parts[0] <= r
  {
    if parts == [] then ""
    else if |parts| == 1 then parts[0]
    else parts[0] + sep + Join(parts[1..], sep)
  }

  /** Joining one more part appends the separator and that part. */
  lemma {:induction false} JoinSnoc(parts: seq<string>, p: string, sep: string)
    requires parts != []
    ensures Join(parts + [p], sep) == Join(parts, sep) + sep + p
    decreases |parts|
  {
    var all := parts + [p];
    if |parts| > 1 {
      assert all[1..] == parts[1..] + [p];
      JoinSnoc(parts[1..], p, sep);
    } else {
      assert all[1..] == [p];
    }
  }

  /** The joined text is as long as its parts plus one separator between each two. */
  lemma {:induction false} JoinLength(parts: seq<string>, sep: string)
    requires parts != []
    ensures |Join(parts, sep)| == TotalLength(parts) + (|parts| - 1) * |sep|
    decreases |parts|
  {
    if |parts| > 1 {
      JoinLength(parts[1..], sep);
    }
  }

  /** The summed lengths of the strings in `parts`. */
  function TotalLength(parts: seq<string>): nat {
    if parts == [] then 0 else |parts[0]| + TotalLength(parts[1..])
  }

  /** Replace every occurrence of character `a` by `b`. */
  function ReplaceChar(s: string, a: char, b: char): (r: string)
    ensures |r| == |s|
    ensures a != b ==> forall i :: 0 <= i < |r| ==> r[i] != a
    ensures forall i :: 0 <= i < |s| && s[i] != a ==> r[i] == s[i]
    ensures forall i :: 0 <= i < |s| && s[i] == a ==> r[i] == b
  {
    seq(|s|, i requires 0 <= i < |s| => if s[i] == a then b else s[i])
  }
}
