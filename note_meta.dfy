/**
 * Front matter and metadata of a note file (`_split_frontmatter` and
 * `_extract_metadata`). The YAML loader is an input: it is given as a function
 * from the header text to what `yaml.safe_load` returns or raises.
 */
module NoteMeta {
  import opened Wrappers
  import opened Text
  import opened IsoDates

  /**
   * A loaded YAML value. Strings and lists are what the metadata looks into;
   * every other value carries the text Python's `str()` gives for it.
   */
  datatype Yaml =
    | YStr(s: string)
    | YList(items: seq<Yaml>, shown: string)
    | YMap(entries: map<string, Yaml>, shown: string)
    | YOther(shown: string)

  /** What `yaml.safe_load` does with a header: a value, or `YAMLError` (other exceptions it can raise are not represented). */
  datatype YamlLoad = Loaded(value: Yaml) | YamlError

  /** The metadata stored with every chunk of a note. */
  datatype NoteInfo = NoteInfo(filePath: string, fileName: string, date: string, tags: string)

  /** Python's `str()` of a YAML value. */
  function Show(y: Yaml): string {
    match y
    case YStr(s) => s
    case YList(_, shown) => shown
    case YMap(_, shown) => shown
    case YOther(shown) => shown
  }

  /** `pat` occurs in `s` at position `k`. */
  predicate OccursAt(s: string, pat: string, k: nat) {
    k + |pat| <= |s| && s[k..k + |pat|] == pat
  }

  /** The first position at or after `from` where `pat` occurs in `s` (`str.find`). */
  function FindFrom(s: string, pat: string, from: nat): (r: Option<nat>)
    ensures r.Some? ==> from <= r.value && OccursAt(s, pat, r.value)
    ensures r.Some? ==> forall k :: from <= k < r.value ==> !OccursAt(s, pat, k)
    ensures r.None? ==> forall k :: from <= k ==> !OccursAt(s, pat, k)
    decreases |s| - from
  {
    if from + |pat| > |s| then None
    else if OccursAt(s, pat, from) then Some(from)
    else FindFrom(s, pat, from + 1)
  }

  /** The text begins with the `---` fence. */
  predicate StartsWithFence(text: string) {
    |text| >= 3 && text[..3] == "---"
  }

  /**
   * `_split_frontmatter`: a text starting `---`, with a second `---`, whose
   * header between the fences loads as a YAML mapping, splits into that mapping
   * and the text after the second fence; any other text gives no front matter
   * and the text unchanged.
   */
  function SplitFrontmatter(text: string, loadYaml: string -> YamlLoad): (r: (map<string, Yaml>, string))
    ensures !StartsWithFence(text) ==> r == (map[], text)
    ensures StartsWithFence(text) && FindFrom(text, "---", 3).None? ==> r == (map[], text)
    ensures r.1 != text ==> |r.1| + 6 <= |text|
    ensures r.1 != text && |r.1| + 6 <= |text| ==>
      var header := text[3..|text| - |r.1| - 3];
      && text == "---" + header + "---" + r.1
      && FindFrom(header, "---", 0).None?
      && loadYaml(header).Loaded? && loadYaml(header).value.YMap?
      && r.0 == loadYaml(header).value.entries
    ensures r.1 == text ==> r.0 == map[]
  {
    if StartsWithFence(text) then
      match FindFrom(text, "---", 3)
      case None => (map[], text)
      case Some(k) =>
        var header := text[3..k];
        var body := text[k + 3..];
        HeaderHasNoFence(text, k);
        assert text == "---" + header + "---" + body;
        match loadYaml(header)
        case Loaded(YMap(entries, _)) => (entries, body)
        case _ => (map[], text)
    else (map[], text)
  }

  /** The header before the first closing fence holds no fence itself. */
  lemma HeaderHasNoFence(text: string, k: nat)
    requires StartsWithFence(text) && FindFrom(text, "---", 3) == Some(k)
    ensures FindFrom(text[3..k], "---", 0).None?
  {
    var header := text[3..k];
    forall j: nat | OccursAt(header, "---", j) ensures 3 + j < k && OccursAt(text, "---", 3 + j) {
      SliceOfSlice(text, 3, k, j, j + 3);
    }
  }

  lemma SliceOfSlice(s: string, lo: nat, hi: nat, i: nat, j: nat)
    requires lo <= hi <= |s| && i <= j <= hi - lo
    ensures s[lo..hi][i..j] == s[lo + i..lo + j]
  {
    var a, b := s[lo..hi][i..j], s[lo + i..lo + j];
    assert |a| == |b|;
    forall c | 0 <= c < |a| ensures a[c] == b[c] {
      assert a[c] == s[lo..hi][i + c] == s[lo + i + c];
    }
  }

  /** The file name starts like `YYYY-MM-DD` (what `re.match(r"(\d{4}-\d{2}-\d{2})", stem)` finds). */
  predicate DatedName(stem: string) {
    |stem| >= 10 && IsoShaped(stem[..10])
  }

  /** `", ".join(str(t) for t in tags)` for a list, the string itself for a string, else empty. */
  function TagsText(fm: map<string, Yaml>): (r: string)
    ensures "tags" !in fm ==> r == ""
    ensures "tags" in fm && fm["tags"].YStr? ==> r == fm["tags"].s
    ensures "tags" in fm && (fm["tags"].YMap? || fm["tags"].YOther?) ==> r == ""
    ensures "tags" in fm && fm["tags"].YList? ==> r == Join(ShowAll(fm["tags"].items), ", ")
    ensures "tags" in fm && fm["tags"].YList? && fm["tags"].items != [] ==> Show(fm["tags"].items[0]) <= r
  {
    if "tags" !in fm then ""
    else match fm["tags"]
      case YList(items, _) => Join(ShowAll(items), ", ")
      case YStr(s) => s
      case _ => ""
  }

  function ShowAll(items: seq<Yaml>): (r: seq<string>)
    ensures |r| == |items|
    ensures forall i :: 0 <= i < |items| ==> r[i] == Show(items[i])
  {
    seq(|items|, i requires 0 <= i < |items| => Show(items[i]))
  }

  /**
   * `_extract_metadata`: path and name of the file, a date from the front
   * matter (first ten characters), else the file name's leading date, else the
   * day of the file's modification time, and the tags as text.
   */
  function ExtractMetadata(relPath: string, stem: string, fm: map<string, Yaml>, mtimeDay: string): (r: NoteInfo)
    ensures r.filePath == relPath && r.fileName == stem
    ensures "date" in fm ==> r.date == Take(Show(fm["date"]), 10)
    ensures "date" !in fm && DatedName(stem) ==> r.date == stem[..10] && IsoShaped(r.date)
    ensures "date" !in fm && !DatedName(stem) ==> r.date == mtimeDay
    ensures r.tags == TagsText(fm)
  {
    var date :=
      if "date" in fm then Take(Show(fm["date"]), 10)
      else if DatedName(stem) then stem[..10]
      else mtimeDay;
    NoteInfo(relPath, stem, date, TagsText(fm))
  }

  /**
   * A note written as `---`, a mapping header, `---` and a body splits back
   * into that header's mapping and the body, when the header holds no fence and
   * does not end in `-` (otherwise the closing fence would be read one or two
   * characters early).
   */
  lemma SplitRoundTrip(header: string, body: string, loadYaml: string -> YamlLoad)
    requires FindFrom(header, "---", 0).None?
    requires header == [] || header[|header| - 1] != '-'
    requires loadYaml(header).Loaded? && loadYaml(header).value.YMap?
    ensures SplitFrontmatter("---" + header + "---" + body, loadYaml) == (loadYaml(header).value.entries, body)
  {
    var text := "---" + header + "---" + body;
    var k := |header| + 3;
    assert StartsWithFence(text) by {
      assert text[..3] == "---";
    }
    ClosingFenceFound(header, body);
    assert text[3..k] == header;
    assert text[k + 3..] == body;
  }

  /** The fence after such a header is the first one after the opening fence. */
  lemma ClosingFenceFound(header: string, body: string)
    requires FindFrom(header, "---", 0).None?
    requires header == [] || header[|header| - 1] != '-'
    ensures FindFrom("---" + header + "---" + body, "---", 3) == Some(|header| + 3)
  {
    var text := "---" + header + "---" + body;
    var k := |header| + 3;
    assert text[k..k + 3] == "---";
    forall j | 3 <= j < k ensures !OccursAt(text, "---", j) {
      if j + 3 <= k {
        assert !OccursAt(header, "---", j - 3);
        FenceInsideHeader(header, body, j);
      } else {
        FenceAcrossHeaderEnd(header, body, j);
      }
    }
    FindFromFirst(text, "---", 3, k);
  }

  /** A fence starting inside the header would be a fence of the header itself. */
  lemma FenceInsideHeader(header: string, body: string, j: nat)
    requires 3 <= j && j <= |header| && !OccursAt(header, "---", j - 3)
    ensures !OccursAt("---" + header + "---" + body, "---", j)
  {
    var text := "---" + header + "---" + body;
    var k := |header| + 3;
    assert text[3..k] == header;
    SliceOfSlice(text, 3, k, j - 3, j);
  }

  /** A fence straddling the header's end would need the header to end in `-`. */
  lemma FenceAcrossHeaderEnd(header: string, body: string, j: nat)
    requires header != [] && header[|header| - 1] != '-'
    requires |header| < j < |header| + 3
    ensures !OccursAt("---" + header + "---" + body, "---", j)
  {
    var text := "---" + header + "---" + body;
    var k := |header| + 3;
    assert text[k - 1] == header[|header| - 1];
    assert text[j..j + 3][k - 1 - j] == text[k - 1];
  }

  /** A first occurrence at or after `from` is what `FindFrom` finds. */
  lemma {:induction false} FindFromFirst(s: string, pat: string, from: nat, k: nat)
    requires from <= k && OccursAt(s, pat, k)
    requires forall j :: from <= j < k ==> !OccursAt(s, pat, j)
    ensures FindFrom(s, pat, from) == Some(k)
    decreases k - from
  {
    if from < k {
      FindFromFirst(s, pat, from + 1, k);
    }
  }
}
