/**
 * `VaultIngester.ingest`: walk a notes vault, keep the Markdown and text files
 * outside the skipped directories, cut each note into chunks and upsert them
 * into the vector collection in batches of 100. The directory walk, reading
 * files, the YAML loader, SHA-256 and the collection are outside the model:
 * the walk is given as its listing, already in `sorted(rglob("*"))` order,
 * the loader and the hash as functions, and the upserts as the batches sent.
 */
module VaultIngest {
  import opened Wrappers
  import opened Text
  import opened Lists
  import opened IsoDates
  import opened NoteMeta
  import opened NoteChunks

  /** Directory names whose contents are never read. */
  const SkipDirs: set<string> := {".obsidian", ".trash", "templates", ".git", ".DS_Store"}

  /** The file suffixes read, compared in lower case. */
  const AllowedExtensions: set<string> := {".md", ".txt"}

  /** Chunks sent to the collection per upsert. */
  const BatchSize := 100

  /**
   * One path of the walk: the components of its absolute path, its path
   * relative to the vault, whether it is a regular file, its text (read with
   * undecodable bytes replaced) and the day of its modification time.
   */
  datatype VaultPath = VaultPath(parts: seq<string>, relPath: string, isFile: bool, text: string, mtimeDay: string)

  /** A chunk as stored: its id, its text, the note's metadata and its position in the note. */
  datatype Doc = Doc(id: string, text: string, info: NoteInfo, chunkIndex: nat)

  datatype IngestError = NotADirectory

  /** `Path.name`: the last component. */
  function Name(p: VaultPath): string {
    if p.parts == [] then "" else p.parts[|p.parts| - 1]
  }

  /** The position of the last `.` in a name. */
  function LastDot(name: string): (r: Option<nat>)
    ensures r.Some? ==> r.value < |name| && name[r.value] == '.'
    ensures r.Some? ==> forall k :: r.value < k < |name| ==> name[k] != '.'
    ensures r.None? ==> forall k :: 0 <= k < |name| ==> name[k] != '.'
  {
    if name == [] then None
    else if name[|name| - 1] == '.' then Some(|name| - 1)
    else LastDot(name[..|name| - 1])
  }

  /** A dot that separates a suffix: not the first character and not the last. */
  predicate HasSuffix(name: string) {
    var dot := LastDot(name);
    dot.Some? && 0 < dot.value < |name| - 1
  }

  /** `Path.suffix`: from the last dot on, or empty. */
  function Suffix(name: string): (r: string)
    ensures HasSuffix(name) ==> |r| >= 2 && r[0] == '.' && forall k :: 1 <= k < |r| ==> r[k] != '.'
    ensures !HasSuffix(name) ==> r == ""
  {
    if HasSuffix(name) then name[LastDot(name).value..] else ""
  }

  /** `Path.stem`: the name without its suffix. */
  function Stem(name: string): (r: string)
    ensures HasSuffix(name) ==> r != [] && r + Suffix(name) == name
    ensures !HasSuffix(name) ==> r == name
  {
    if HasSuffix(name) then name[..LastDot(name).value] else name
  }

  /** The walk keeps a path: a file with an allowed suffix, outside the skipped directories, with non-blank text. */
  predicate Eligible(p: VaultPath) {
    && p.isFile
    && Lower(Suffix(Name(p))) in AllowedExtensions
    && (forall k :: 0 <= k < |p.parts| ==> p.parts[k] !in SkipDirs)
    && !IsBlank(p.text)
  }

  // --------------------------------------------------------------- chunk ids

  /** `str(n)` for a natural number. */
  function Decimal(n: nat): (r: string)
    ensures r != []
    ensures forall k :: 0 <= k < |r| ==> IsDigit(r[k])
    ensures Number(r) == n
  {
    var q, d := n / 10, n % 10;
    assert n == q * 10 + d;
    var last := DigitChar(d);
    assert IsDigit(last) && last as int - '0' as int == d;
    if n < 10 then
      NumberSnoc([], last);
      [last]
    else
      var front := Decimal(q);
      NumberSnoc(front, last);
      assert Number(front + [last]) == n;
      front + [last]
  }

  /** The text hashed for a chunk id: `f"{rel}::chunk_{i}"`. */
  function ChunkKey(relPath: string, index: nat): string {
    relPath + "::chunk_" + Decimal(index)
  }

  /** `_chunk_id`: the first 16 characters of the hash of the chunk key. */
  function ChunkId(relPath: string, index: nat, sha256Hex: string -> string): (r: string)
    ensures |r| <= 16
  {
    Take(sha256Hex(ChunkKey(relPath, index)), 16)
  }

  /** Different files or positions give different chunk keys, so ids only collide when the hash does. */
  lemma ChunkKeyInjective(rel1: string, i1: nat, rel2: string, i2: nat)
    requires ChunkKey(rel1, i1) == ChunkKey(rel2, i2)
    ensures rel1 == rel2 && i1 == i2
  {
    var d1, d2 := Decimal(i1), Decimal(i2);
    var key := ChunkKey(rel1, i1);
    if |d1| < |d2| {
      SuffixDigit(rel2, d2, |d2| - |d1| - 1);
      SeparatorBeforeDigits(rel1, d1);
      assert false;
    } else if |d2| < |d1| {
      SuffixDigit(rel1, d1, |d1| - |d2| - 1);
      SeparatorBeforeDigits(rel2, d2);
      assert false;
    }
    assert d1 == key[|key| - |d1|..] == d2;
    assert rel1 == key[..|rel1|] == rel2;
  }

  /** In a chunk key, the character before the index digits is `_`. */
  lemma SeparatorBeforeDigits(rel: string, d: string)
    ensures var key := rel + "::chunk_" + d; key[|key| - |d| - 1] == '_'
  {
  }

  /** In a chunk key, the characters of the index are digits. */
  lemma SuffixDigit(rel: string, d: string, k: nat)
    requires forall j :: 0 <= j < |d| ==> IsDigit(d[j])
    requires k < |d|
    ensures var key := rel + "::chunk_" + d; IsDigit(key[|key| - |d| + k])
  {
    var key := rel + "::chunk_" + d;
    assert key[|key| - |d| + k] == d[k];
  }

  // ----------------------------------------------------------------- ingest

  /** The chunks one path contributes, in order: none unless it is eligible. */
  function FileDocs(p: VaultPath, loadYaml: string -> YamlLoad, sha256Hex: string -> string): (r: seq<Doc>)
    ensures !Eligible(p) ==> r == []
  {
    if !Eligible(p) then []
    else
      var split := SplitFrontmatter(p.text, loadYaml);
      var info := ExtractMetadata(p.relPath, Stem(Name(p)), split.0, p.mtimeDay);
      NoteDocs(p.relPath, TextChunks(split.1), info, sha256Hex)
  }

  /** A note's chunks as stored, each with its id and position. */
  function NoteDocs(relPath: string, chunks: seq<string>, info: NoteInfo, sha256Hex: string -> string): (r: seq<Doc>)
    ensures |r| == |chunks|
    ensures forall i :: 0 <= i < |chunks| ==> r[i] == Doc(ChunkId(relPath, i, sha256Hex), chunks[i], info, i)
  {
    seq(|chunks|, i requires 0 <= i < |chunks| => Doc(ChunkId(relPath, i, sha256Hex), chunks[i], info, i))
  }

  /** The chunks of the whole walk, file after file. */
  function AllDocs(paths: seq<VaultPath>, loadYaml: string -> YamlLoad, sha256Hex: string -> string): seq<Doc> {
    if paths == [] then []
    else AllDocs(paths[..|paths| - 1], loadYaml, sha256Hex) + FileDocs(paths[|paths| - 1], loadYaml, sha256Hex)
  }

  /** One more path read adds its chunks, if any, after those of the paths before it. */
  lemma AllDocsStep(paths: seq<VaultPath>, k: nat, loadYaml: string -> YamlLoad, sha256Hex: string -> string)
    requires k < |paths|
    ensures AllDocs(paths[..k + 1], loadYaml, sha256Hex) == AllDocs(paths[..k], loadYaml, sha256Hex) + FileDocs(paths[k], loadYaml, sha256Hex)
  {
    assert paths[..k + 1][..k] == paths[..k];
  }

  /** One eligible note read: front matter split off, metadata extracted, body chunked, each chunk given its id. */
  method NoteChunkDocs(p: VaultPath, loadYaml: string -> YamlLoad, sha256Hex: string -> string) returns (docs: seq<Doc>)
    requires Eligible(p)
    ensures docs == FileDocs(p, loadYaml, sha256Hex)
  {
    var split := SplitFrontmatter(p.text, loadYaml);
    var info := ExtractMetadata(p.relPath, Stem(Name(p)), split.0, p.mtimeDay);
    var chunks := ChunkText(split.1);
    docs := NoteDocs(p.relPath, chunks, info, sha256Hex);
  }

  /** The chunk is trimmed text from the file at `p`, which the walk keeps, and carries that file's path and the id of its key. */
  predicate ChunkOf(d: Doc, p: VaultPath, sha256Hex: string -> string) {
    && Eligible(p)
    && Trimmed(d.text)
    && d.info.filePath == p.relPath
    && d.id == ChunkId(p.relPath, d.chunkIndex, sha256Hex)
  }

  /** Each chunk a file contributes is a chunk of that file. */
  lemma FileDocsAreChunks(p: VaultPath, loadYaml: string -> YamlLoad, sha256Hex: string -> string)
    ensures forall d :: d in FileDocs(p, loadYaml, sha256Hex) ==> ChunkOf(d, p, sha256Hex)
  {
    if Eligible(p) {
      TextChunksFacts(SplitFrontmatter(p.text, loadYaml).1);
    }
  }

  /** Every stored chunk is a chunk of some file of the walk. */
  lemma {:induction false} AllDocsFromEligible(paths: seq<VaultPath>, loadYaml: string -> YamlLoad, sha256Hex: string -> string)
    ensures forall d :: d in AllDocs(paths, loadYaml, sha256Hex) ==>
      exists k :: 0 <= k < |paths| && ChunkOf(d, paths[k], sha256Hex)
  {
    if paths != [] {
      var prev := paths[..|paths| - 1];
      var p := paths[|paths| - 1];
      AllDocsFromEligible(prev, loadYaml, sha256Hex);
      FileDocsAreChunks(p, loadYaml, sha256Hex);
      forall d | d in AllDocs(paths, loadYaml, sha256Hex)
        ensures exists k :: 0 <= k < |paths| && ChunkOf(d, paths[k], sha256Hex)
      {
        if d in AllDocs(prev, loadYaml, sha256Hex) {
          var j :| 0 <= j < |prev| && ChunkOf(d, prev[j], sha256Hex);
          assert paths[j] == prev[j];
        } else {
          assert ChunkOf(d, paths[|paths| - 1], sha256Hex);
        }
      }
    }
  }

  lemma AppendOne<T>(done: seq<T>, batch: seq<T>, before: seq<T>, prefix: seq<T>, x: T)
    requires done + batch == before + prefix
    ensures done + (batch + [x]) == before + (prefix + [x])
  {
    assert done + (batch + [x]) == (done + batch) + [x];
    assert before + (prefix + [x]) == (before + prefix) + [x];
  }

  /** Every upsert but the last sends exactly 100 chunks; the last sends between 1 and 100. */
  ghost predicate Batched(batches: seq<seq<Doc>>) {
    && (forall i :: 0 <= i < |batches| ==> 0 < |batches[i]| <= BatchSize)
    && (forall i :: 0 <= i < |batches| - 1 ==> |batches[i]| == BatchSize)
  }

  /**
   * `ingest`: a missing vault is an error; otherwise every chunk of every
   * eligible note is upserted once, in walk order, in batches of 100 with a
   * final smaller batch, and the number upserted is returned.
   */
  method Ingest(isDir: bool, paths: seq<VaultPath>, loadYaml: string -> YamlLoad, sha256Hex: string -> string)
    returns (r: Result<nat, IngestError>, ghost batches: seq<seq<Doc>>)
    ensures !isDir <==> r == Err(NotADirectory)
    ensures r.Ok? ==> r.value == |Flatten(batches)|
    ensures r.Ok? ==> Flatten(batches) == AllDocs(paths, loadYaml, sha256Hex)
    ensures r.Ok? ==> Batched(batches)
  {
    if !isDir {
      return Err(NotADirectory), [];
    }
    var added := 0;
    var batch: seq<Doc> := [];
    batches := [];
    for k := 0 to |paths|
      invariant Flatten(batches) + batch == AllDocs(paths[..k], loadYaml, sha256Hex)
      invariant added == |Flatten(batches)|
      invariant |batch| < BatchSize
      invariant forall i :: 0 <= i < |batches| ==> |batches[i]| == BatchSize
    {
      AllDocsStep(paths, k, loadYaml, sha256Hex);
      var p := paths[k];
      if !p.isFile || Lower(Suffix(Name(p))) !in AllowedExtensions || exists j :: 0 <= j < |p.parts| && p.parts[j] in SkipDirs {
        continue;
      }
      if Strip(p.text) == [] {
        continue;
      }
      var docs := NoteChunkDocs(p, loadYaml, sha256Hex);
      batch, added, batches := AddChunks(docs, batch, added, batches);
    }
    assert paths[..|paths|] == paths;
    if batch != [] {
      FlattenSnoc(batches, batch);
      added := added + |batch|;
      batches := batches + [batch];
    }
    return Ok(added), batches;
  }

  /**
   * The loop over one note's chunks: each joins the open batch, which is sent
   * as soon as it holds 100 chunks.
   */
  method AddChunks(docs: seq<Doc>, batch0: seq<Doc>, added0: nat, ghost batches0: seq<seq<Doc>>)
    returns (batch: seq<Doc>, added: nat, ghost batches: seq<seq<Doc>>)
    requires added0 == |Flatten(batches0)| && |batch0| < BatchSize
    requires forall i :: 0 <= i < |batches0| ==> |batches0[i]| == BatchSize
    ensures Flatten(batches) + batch == Flatten(batches0) + batch0 + docs
    ensures added == |Flatten(batches)| && |batch| < BatchSize
    ensures forall i :: 0 <= i < |batches| ==> |batches[i]| == BatchSize
  {
    batch, added, batches := batch0, added0, batches0;
    ghost var before := Flatten(batches0) + batch0;
    for i := 0 to |docs|
      invariant Flatten(batches) + batch == before + docs[..i]
      invariant added == |Flatten(batches)|
      invariant |batch| < BatchSize
      invariant forall j :: 0 <= j < |batches| ==> |batches[j]| == BatchSize
    {
      var doc := docs[i];
      TakeSnoc(docs, i);
      AppendOne(Flatten(batches), batch, before, docs[..i], doc);
      batch := batch + [doc];
      if |batch| >= BatchSize {
        FlattenSnoc(batches, batch);
        added := added + |batch|;
        batches := batches + [batch];
        batch := [];
        assert Flatten(batches) + batch == Flatten(batches);
      }
    }
    assert docs[..|docs|] == docs;
  }
}
