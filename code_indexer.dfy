/**
 * `CodeIndexer`: loading a folder into per-file document lists (with the
 * `stats` counters), flattening them into the batch handed to the vector
 * store, and the indexed-files manifest.
 */
module Indexer {
  import opened Strings
  import opened TextSplitter
  import opened FileScan
  import opened ChunkIds
  import opened Manifest

  datatype Metadata = Metadata(fullPath: string, chunkId: nat)
  datatype Document = Document(pageContent: string, metadata: Metadata)

  /** One entry of the insertion-ordered `docs_by_file` dict. */
  datatype FileDocs = FileDocs(path: string, docs: seq<Document>)

  datatype Stats = Stats(loaded: nat, skippedExt: nat, skippedSize: nat, error: nat)

  /** The parallel lists passed to `collection.add` (the embeddings are left out). */
  datatype Batch = Batch(ids: seq<string>, documents: seq<string>, metadatas: seq<Metadata>)

  // ---------------------------------------------------------------------
  // The insertion-ordered dict

  function Keys(d: seq<FileDocs>): seq<string> {
    seq(|d|, i requires 0 <= i < |d| => d[i].path)
  }

  ghost predicate DistinctKeys(d: seq<FileDocs>) {
    forall i, j :: 0 <= i < j < |d| ==> d[i].path != d[j].path
  }

  /** Position of key `k` in `d`, or -1 when `d` has no such key. */
  function KeyIndex(d: seq<FileDocs>, k: string): (i: int)
    ensures -1 <= i < |d|
    ensures i == -1 <==> k !in Keys(d)
    ensures i >= 0 ==> d[i].path == k
  {
    if d == [] then
      assert Keys(d) == [];
      -1
    else if d[|d| - 1].path == k then
      assert Keys(d)[|d| - 1] == k;
      |d| - 1
    else
      assert Keys(d) == Keys(d[..|d| - 1]) + [d[|d| - 1].path];
      KeyIndex(d[..|d| - 1], k)
  }

  /**
   * `d[k] = v`: an existing key keeps its position and gets the new value;
   * a new key goes at the end.
   */
  function Put(d: seq<FileDocs>, k: string, v: seq<Document>): (r: seq<FileDocs>)
    requires DistinctKeys(d)
    ensures DistinctKeys(r)
    ensures k in Keys(d) ==>
      |r| == |d| && forall i :: 0 <= i < |d| ==> r[i] == (if d[i].path == k then FileDocs(k, v) else d[i])
    ensures k !in Keys(d) ==> r == d + [FileDocs(k, v)]
  {
    var i := KeyIndex(d, k);
    if i < 0 then
      var r := d + [FileDocs(k, v)];
      assert forall j :: 0 <= j < |d| ==> r[j] == d[j] && Keys(d)[j] != k;
      r
    else
      d[i := FileDocs(k, v)]
  }

  // ---------------------------------------------------------------------
  // Loading: what the nested loops of load_documents_from_folder compute

  /** The chunks of a file's text with the indexer's splitter (2500/300). */
  function ChunksOf(text: string): seq<string> {
    Windows(text, CHUNK_SIZE, CHUNK_OVERLAP, 0)
  }

  /** One document per chunk, tagged with the file's path and the chunk's position. */
  function DocsFor(path: string, chunks: seq<string>): seq<Document> {
    seq(|chunks|, i requires 0 <= i < |chunks| => Document(chunks[i], Metadata(path, i)))
  }

  /** Keys are distinct and every entry's documents carry its path and chunk ids 0, 1, ... */
  ghost predicate WellBuilt(d: seq<FileDocs>) {
    DistinctKeys(d) &&
    forall i, j :: 0 <= i < |d| && 0 <= j < |d[i].docs| ==> d[i].docs[j].metadata == Metadata(d[i].path, j)
  }

  /** The dict after file `x` has gone through the loop: an accepted file's documents are stored under its path. */
  function Record(d: seq<FileDocs>, x: Seen): seq<FileDocs>
    requires DistinctKeys(d)
  {
    if Classify(x.file) == Accept then Put(d, x.fullPath, DocsFor(x.fullPath, ChunksOf(x.file.text))) else d
  }

  /** The dict `d` after the files `vs` have gone through the loop, in order. */
  function RecordAll(d: seq<FileDocs>, vs: seq<Seen>): (r: seq<FileDocs>)
    requires DistinctKeys(d)
    ensures DistinctKeys(r)
  {
    if vs == [] then d else Record(RecordAll(d, vs[..|vs| - 1]), vs[|vs| - 1])
  }

  /** The dict `load_documents_from_folder` returns for the files `vs`. */
  function BuildDict(vs: seq<Seen>): (d: seq<FileDocs>)
    ensures DistinctKeys(d)
  {
    RecordAll([], vs)
  }

  lemma {:induction false} RecordAllAppend(d: seq<FileDocs>, a: seq<Seen>, b: seq<Seen>)
    requires DistinctKeys(d)
    ensures RecordAll(d, a + b) == RecordAll(RecordAll(d, a), b)
    decreases |b|
  {
    if b == [] {
      assert a + b == a;
    } else {
      var b0 := b[..|b| - 1];
      RecordAllAppend(d, a, b0);
      assert (a + b)[..|a + b| - 1] == a + b0;
    }
  }

  /** Some file among `vs` has full path `k` and is accepted. */
  ghost predicate AcceptedAt(vs: seq<Seen>, k: string) {
    exists i :: 0 <= i < |vs| && vs[i].fullPath == k && Classify(vs[i].file) == Accept
  }

  /** Entry `e` holds the documents of the windows of some accepted file among `vs` with its path. */
  ghost predicate EntryFrom(vs: seq<Seen>, e: FileDocs) {
    exists i :: 0 <= i < |vs| && vs[i].fullPath == e.path && Classify(vs[i].file) == Accept &&
      e.docs == DocsFor(e.path, ChunksOf(vs[i].file.text))
  }

  /** After `Put`, the keys are the old keys and `k`. */
  lemma KeysOfPut(d: seq<FileDocs>, k: string, v: seq<Document>, q: string)
    requires DistinctKeys(d)
    ensures q in Keys(Put(d, k, v)) <==> q in Keys(d) || q == k
  {
    var r := Put(d, k, v);
    if q in Keys(d) {
      var i :| 0 <= i < |d| && Keys(d)[i] == q;
      assert Keys(r)[i] == q;
    } else if q == k {
      assert Keys(r)[|d|] == q;
    }
    if q in Keys(r) && q != k {
      var i :| 0 <= i < |r| && Keys(r)[i] == q;
      assert Keys(d)[i] == q;
    }
  }

  lemma AcceptedAtSnoc(vs: seq<Seen>, k: string)
    requires vs != []
    ensures AcceptedAt(vs, k) <==>
      AcceptedAt(vs[..|vs| - 1], k) || (vs[|vs| - 1].fullPath == k && Classify(vs[|vs| - 1].file) == Accept)
  {
    var init := vs[..|vs| - 1];
    if AcceptedAt(init, k) {
      var i :| 0 <= i < |init| && init[i].fullPath == k && Classify(init[i].file) == Accept;
      assert vs[i] == init[i];
    }
    if AcceptedAt(vs, k) {
      var i :| 0 <= i < |vs| && vs[i].fullPath == k && Classify(vs[i].file) == Accept;
      if i < |init| { assert init[i] == vs[i]; }
    }
  }

  /** A path is a key of the built dict exactly when some accepted file has it. */
  lemma {:induction false} BuildDictKeys(vs: seq<Seen>, k: string)
    ensures k in Keys(BuildDict(vs)) <==> AcceptedAt(vs, k)
  {
    if vs != [] {
      var init := vs[..|vs| - 1];
      var x := vs[|vs| - 1];
      BuildDictKeys(init, k);
      AcceptedAtSnoc(vs, k);
      if Classify(x.file) == Accept {
        KeysOfPut(BuildDict(init), x.fullPath, DocsFor(x.fullPath, ChunksOf(x.file.text)), k);
      }
    }
  }

  /** Every entry of the built dict holds the documents of the windows of an accepted file with its path. */
  lemma {:induction false} BuildDictValues(vs: seq<Seen>)
    ensures forall e :: e in BuildDict(vs) ==> EntryFrom(vs, e)
  {
    if vs != [] {
      var init := vs[..|vs| - 1];
      var x := vs[|vs| - 1];
      BuildDictValues(init);
      var prev := BuildDict(init);
      var d := BuildDict(vs);
      forall e | e in d ensures EntryFrom(vs, e) {
        if Classify(x.file) == Accept && e == FileDocs(x.fullPath, DocsFor(x.fullPath, ChunksOf(x.file.text))) {
          assert vs[|vs| - 1] == x;
        } else {
          var i :| 0 <= i < |d| && d[i] == e;
          assert i < |prev| && e == prev[i];
          assert e in prev;
          assert EntryFrom(init, e);
          var j :| 0 <= j < |init| && init[j].fullPath == e.path && Classify(init[j].file) == Accept &&
            e.docs == DocsFor(e.path, ChunksOf(init[j].file.text));
          assert vs[j] == init[j];
        }
      }
    }
  }

  /** The built dict is well built: distinct keys, chunk ids 0, 1, ... under each path. */
  lemma BuildDictWellBuilt(vs: seq<Seen>)
    ensures WellBuilt(BuildDict(vs))
  {
    var d := BuildDict(vs);
    BuildDictValues(vs);
    forall i, j | 0 <= i < |d| && 0 <= j < |d[i].docs|
      ensures d[i].docs[j].metadata == Metadata(d[i].path, j)
    {
      assert d[i] in d;
    }
  }

  /** How many of the files `vs` get verdict `v`. */
  function CountVerdict(vs: seq<Seen>, v: Verdict): nat {
    if vs == [] then 0
    else CountVerdict(vs[..|vs| - 1], v) + (if Classify(vs[|vs| - 1].file) == v then 1 else 0)
  }

  /** How many chunks the accepted files among `vs` have. */
  function ChunkTotal(vs: seq<Seen>): nat {
    if vs == [] then 0
    else
      var x := vs[|vs| - 1];
      ChunkTotal(vs[..|vs| - 1]) + (if Classify(x.file) == Accept then |ChunksOf(x.file.text)| else 0)
  }

  /** The counters after the files `vs`: `error` is never touched. */
  function StatsAfter(s: Stats, vs: seq<Seen>): Stats {
    s.(loaded := s.loaded + ChunkTotal(vs),
       skippedExt := s.skippedExt + CountVerdict(vs, SkipExt),
       skippedSize := s.skippedSize + CountVerdict(vs, SkipSize))
  }

  lemma {:induction false} StatsAfterAppend(s: Stats, a: seq<Seen>, b: seq<Seen>)
    ensures StatsAfter(s, a + b) == StatsAfter(StatsAfter(s, a), b)
  {
    ChunkTotalAppend(a, b);
    CountVerdictAppend(a, b, SkipExt);
    CountVerdictAppend(a, b, SkipSize);
  }

  lemma {:induction false} ChunkTotalAppend(a: seq<Seen>, b: seq<Seen>)
    ensures ChunkTotal(a + b) == ChunkTotal(a) + ChunkTotal(b)
    decreases |b|
  {
    if b == [] {
      assert a + b == a;
    } else {
      ChunkTotalAppend(a, b[..|b| - 1]);
      assert (a + b)[..|a + b| - 1] == a + b[..|b| - 1];
    }
  }

  lemma {:induction false} CountVerdictAppend(a: seq<Seen>, b: seq<Seen>, v: Verdict)
    ensures CountVerdict(a + b, v) == CountVerdict(a, v) + CountVerdict(b, v)
    decreases |b|
  {
    if b == [] {
      assert a + b == a;
    } else {
      CountVerdictAppend(a, b[..|b| - 1], v);
      assert (a + b)[..|a + b| - 1] == a + b[..|b| - 1];
    }
  }

  /** The counters after one more file. */
  lemma StatsAfterSnoc(s: Stats, vs: seq<Seen>, x: Seen)
    ensures StatsAfter(s, vs + [x]) == match Classify(x.file)
      case SkipExt => StatsAfter(s, vs).(skippedExt := StatsAfter(s, vs).skippedExt + 1)
      case SkipSize => StatsAfter(s, vs).(skippedSize := StatsAfter(s, vs).skippedSize + 1)
      case Accept => StatsAfter(s, vs).(loaded := StatsAfter(s, vs).loaded + |ChunksOf(x.file.text)|)
  {
    assert (vs + [x])[..|vs|] == vs;
  }

  /** Every file is counted under exactly one verdict. */
  lemma {:induction false} VerdictsPartition(vs: seq<Seen>)
    ensures CountVerdict(vs, SkipExt) + CountVerdict(vs, SkipSize) + CountVerdict(vs, Accept) == |vs|
  {
    if vs != [] {
      VerdictsPartition(vs[..|vs| - 1]);
    }
  }

  /**
   * What one file adds to the counters, wherever it stands among the
   * others: a file whose extension is not allowed adds one to `skippedExt`
   * and nothing else, however big it is; an allowed file over the size
   * limit adds one to `skippedSize`; any other file, including one of
   * exactly the limit, adds its number of chunks to `loaded`.  `error`
   * never changes.
   */
  lemma OneFileContribution(s: Stats, a: seq<Seen>, x: Seen, b: seq<Seen>)
    ensures var with := StatsAfter(s, a + [x] + b);
      var without := StatsAfter(s, a + b);
      with.error == without.error == s.error &&
      with == match Classify(x.file)
        case SkipExt => without.(skippedExt := without.skippedExt + 1)
        case SkipSize => without.(skippedSize := without.skippedSize + 1)
        case Accept => without.(loaded := without.loaded + |ChunksOf(x.file.text)|)
  {
    StatsAfterAppend(s, a + [x], b);
    StatsAfterAppend(s, a, b);
    StatsAfterSnoc(s, a, x);
  }

  /** An accepted empty file still gets an entry, with no documents. */
  lemma EmptyFileGetsEmptyList(vs: seq<Seen>, x: Seen)
    requires Classify(x.file) == Accept && x.file.text == []
    ensures FileDocs(x.fullPath, []) in BuildDict(vs + [x])
  {
    assert (vs + [x])[..|vs|] == vs;
    var prev := BuildDict(vs);
    assert ChunksOf(x.file.text) == [];
    assert DocsFor(x.fullPath, []) == [];
    var d := BuildDict(vs + [x]);
    assert d == Put(prev, x.fullPath, []);
    if x.fullPath in Keys(prev) {
      var i :| 0 <= i < |prev| && Keys(prev)[i] == x.fullPath;
      assert d[i] == FileDocs(x.fullPath, []);
    } else {
      assert d[|prev|] == FileDocs(x.fullPath, []);
    }
  }

  // ---------------------------------------------------------------------
  // Indexing: what index_documents hands on

  /** The documents of the non-empty entries, in dict order. */
  function AllDocs(d: seq<FileDocs>): seq<Document> {
    if d == [] then [] else AllDocs(d[..|d| - 1]) + d[|d| - 1].docs
  }

  /** The relative paths of the non-empty entries, in dict order. */
  function IndexedPaths(d: seq<FileDocs>, relpath: string -> string): seq<string> {
    if d == [] then []
    else if d[|d| - 1].docs == [] then IndexedPaths(d[..|d| - 1], relpath)
    else IndexedPaths(d[..|d| - 1], relpath) + [relpath(d[|d| - 1].path)]
  }

  /** `b` holds the parallel lists built from `docs`. */
  ghost predicate BatchOf(b: Batch, docs: seq<Document>) {
    |b.ids| == |b.documents| == |b.metadatas| == |docs| &&
    forall i :: 0 <= i < |docs| ==>
      b.documents[i] == docs[i].pageContent && b.metadatas[i] == docs[i].metadata &&
      b.ids[i] == FormatId(docs[i].metadata.fullPath, docs[i].metadata.chunkId)
  }

  /** A path is recorded exactly when some non-empty entry has it; empty entries record nothing. */
  lemma {:induction false} IndexedPathsExact(d: seq<FileDocs>, relpath: string -> string, p: string)
    ensures p in IndexedPaths(d, relpath) <==> exists i :: 0 <= i < |d| && d[i].docs != [] && relpath(d[i].path) == p
    ensures |IndexedPaths(d, relpath)| <= |d|
  {
    if d != [] {
      var init := d[..|d| - 1];
      IndexedPathsExact(init, relpath, p);
      if exists i :: 0 <= i < |init| && init[i].docs != [] && relpath(init[i].path) == p {
        var i :| 0 <= i < |init| && init[i].docs != [] && relpath(init[i].path) == p;
        assert d[i] == init[i];
      }
      if exists i :: 0 <= i < |d| && d[i].docs != [] && relpath(d[i].path) == p {
        var i :| 0 <= i < |d| && d[i].docs != [] && relpath(d[i].path) == p;
        if i < |init| {
          assert init[i] == d[i];
        }
      }
    }
  }

  /** No two flattened documents of a well-built dict share a path and a chunk id. */
  lemma {:induction false} AllDocsDistinctMetadata(d: seq<FileDocs>)
    requires WellBuilt(d)
    ensures forall m, n :: 0 <= m < n < |AllDocs(d)| ==> AllDocs(d)[m].metadata != AllDocs(d)[n].metadata
  {
    if d != [] {
      var init := d[..|d| - 1];
      var last := d[|d| - 1];
      WellBuiltPrefix(d);
      AllDocsDistinctMetadata(init);
      AllDocsPaths(init);
      var a := AllDocs(init);
      var all := AllDocs(d);
      assert all == a + last.docs;
      forall i | 0 <= i < |init| ensures Keys(init)[i] != last.path {
        assert Keys(init)[i] == d[i].path;
      }
      forall m, n | 0 <= m < n < |all| ensures all[m].metadata != all[n].metadata {
        if n < |a| {
          assert all[m] == a[m] && all[n] == a[n];
        } else if m >= |a| {
          assert all[m] == last.docs[m - |a|] && all[n] == last.docs[n - |a|];
          assert all[m].metadata.chunkId == m - |a|;
        } else {
          assert all[m] == a[m] && all[n] == last.docs[n - |a|];
          assert all[m].metadata.fullPath in Keys(init);
        }
      }
    }
  }

  lemma WellBuiltPrefix(d: seq<FileDocs>)
    requires WellBuilt(d) && d != []
    ensures WellBuilt(d[..|d| - 1])
  {
    var init := d[..|d| - 1];
    forall i, j | 0 <= i < |init| && 0 <= j < |init[i].docs|
      ensures init[i].docs[j].metadata == Metadata(init[i].path, j)
    {
      assert init[i] == d[i];
    }
  }

  /** Every flattened document of a well-built dict carries one of its keys. */
  lemma {:induction false} AllDocsPaths(d: seq<FileDocs>)
    requires WellBuilt(d)
    ensures forall m :: 0 <= m < |AllDocs(d)| ==> AllDocs(d)[m].metadata.fullPath in Keys(d)
  {
    if d != [] {
      var init := d[..|d| - 1];
      var last := d[|d| - 1];
      WellBuiltPrefix(d);
      AllDocsPaths(init);
      var a := AllDocs(init);
      var all := AllDocs(d);
      assert all == a + last.docs;
      forall m | 0 <= m < |all| ensures all[m].metadata.fullPath in Keys(d) {
        if m < |a| {
          var i :| 0 <= i < |init| && Keys(init)[i] == a[m].metadata.fullPath;
          assert Keys(d)[i] == Keys(init)[i];
        } else {
          assert all[m] == last.docs[m - |a|];
          assert all[m].metadata.fullPath == last.path == Keys(d)[|d| - 1];
        }
      }
    }
  }

  /** Every id of the batch is distinct and parses back into its metadata's path and chunk id. */
  ghost predicate IdsSound(b: Batch)
    requires |b.metadatas| == |b.ids|
  {
    (forall i :: 0 <= i < |b.ids| ==> ParseId(b.ids[i]) == Some((b.metadatas[i].fullPath, b.metadatas[i].chunkId))) &&
    (forall i, j :: 0 <= i < j < |b.ids| ==> b.ids[i] != b.ids[j])
  }

  /**
   * The ids of a well-built dict's batch are pairwise distinct, and each
   * one parses back into the path and chunk id of its metadata.
   */
  lemma BatchIdsDistinct(d: seq<FileDocs>, b: Batch)
    requires WellBuilt(d) && BatchOf(b, AllDocs(d))
    ensures forall i :: 0 <= i < |b.ids| ==> ParseId(b.ids[i]) == Some((b.metadatas[i].fullPath, b.metadatas[i].chunkId))
    ensures forall i, j :: 0 <= i < j < |b.ids| ==> b.ids[i] != b.ids[j]
  {
    var all := AllDocs(d);
    AllDocsPaths(d);
    AllDocsDistinctMetadata(d);
    forall i | 0 <= i < |b.ids|
      ensures ParseId(b.ids[i]) == Some((b.metadatas[i].fullPath, b.metadatas[i].chunkId))
    {
      ParseFormatId(b.metadatas[i].fullPath, b.metadatas[i].chunkId);
    }
    forall i, j | 0 <= i < j < |b.ids| ensures b.ids[i] != b.ids[j] {
      assert ParseId(b.ids[i]) != ParseId(b.ids[j]) by {
        assert all[i].metadata != all[j].metadata;
      }
    }
  }

  /** Builds the documents of one file (the `enumerate` loop). */
  method BuildDocuments(chunks: seq<string>, fullPath: string) returns (documents: seq<Document>)
    ensures |documents| == |chunks|
    ensures forall i :: 0 <= i < |chunks| ==> documents[i] == Document(chunks[i], Metadata(fullPath, i))
  {
    documents := [];
    for idx := 0 to |chunks|
      invariant |documents| == idx
      invariant forall i :: 0 <= i < idx ==> documents[i] == Document(chunks[i], Metadata(fullPath, i))
    {
      documents := documents + [Document(chunks[idx], Metadata(fullPath, idx))];
    }
  }

  class CodeIndexer {
    const splitter: SimpleTextSplitter
    var stats: Stats
    var indexedFiles: seq<string>
    /** The text of the indexed-files manifest as this indexer last wrote it. */
    var manifest: string

    ghost predicate Valid() {
      splitter.chunkSize == CHUNK_SIZE && splitter.chunkOverlap == CHUNK_OVERLAP
    }

    constructor ()
      ensures Valid()
      ensures stats == Stats(0, 0, 0, 0) && indexedFiles == [] && manifest == []
    {
      splitter := new SimpleTextSplitter(CHUNK_SIZE, CHUNK_OVERLAP);
      stats := Stats(0, 0, 0, 0);
      indexedFiles := [];
      manifest := [];
    }

    /**
     * Walks the folder `folderPath`, whose tree is `tree`, and builds the
     * documents of every accepted file.
     */
    method LoadDocumentsFromFolder(folderPath: string, tree: Dir) returns (docsByFile: seq<FileDocs>)
      requires Valid()
      modifies this`stats
      ensures docsByFile == BuildDict(Scanned(folderPath, tree))
      ensures stats == StatsAfter(old(stats), Scanned(folderPath, tree))
    {
      docsByFile := [];
      var walk := Walk(folderPath, [], tree);
      for i := 0 to |walk|
        invariant docsByFile == BuildDict(Visited(walk[..i]))
        invariant stats == StatsAfter(old(stats), Visited(walk[..i]))
      {
        ghost var before := Visited(walk[..i]);
        assert walk[..i + 1][..i] == walk[..i];
        assert Visited(walk[..i + 1]) == before + FilesOf(walk[i]);
        RecordAllAppend([], before, FilesOf(walk[i]));
        StatsAfterAppend(old(stats), before, FilesOf(walk[i]));
        docsByFile := LoadDirectory(walk[i], docsByFile);
      }
      assert walk[..|walk|] == walk;
    }

    /** The inner loop over the files of one directory of the walk. */
    method LoadDirectory(visit: Visit, docsByFile: seq<FileDocs>) returns (updated: seq<FileDocs>)
      requires Valid() && DistinctKeys(docsByFile)
      modifies this`stats
      ensures updated == RecordAll(docsByFile, FilesOf(visit))
      ensures stats == StatsAfter(old(stats), FilesOf(visit))
    {
      updated := docsByFile;
      ghost var files := FilesOf(visit);
      for j := 0 to |visit.files|
        invariant updated == RecordAll(docsByFile, files[..j])
        invariant stats == StatsAfter(old(stats), files[..j])
      {
        ghost var done, x := files[..j], files[j];
        assert files[..j + 1] == done + [x];
        assert x == Seen(Join(visit.path, visit.files[j].name), visit.files[j]);
        assert RecordAll(docsByFile, done + [x]) == Record(RecordAll(docsByFile, done), x) by {
          assert (done + [x])[..|done|] == done;
        }
        StatsAfterSnoc(old(stats), done, x);
        updated := LoadFile(visit.path, visit.files[j], updated);
      }
      assert files[..|visit.files|] == files;
    }

    /** The body of the inner loop for one file of the directory `dirPath`. */
    method LoadFile(dirPath: string, file: FileEntry, docsByFile: seq<FileDocs>) returns (updated: seq<FileDocs>)
      requires Valid() && DistinctKeys(docsByFile)
      modifies this`stats
      ensures updated == Record(docsByFile, Seen(Join(dirPath, file.name), file))
      ensures stats == match Classify(file)
        case SkipExt => old(stats).(skippedExt := old(stats).skippedExt + 1)
        case SkipSize => old(stats).(skippedSize := old(stats).skippedSize + 1)
        case Accept => old(stats).(loaded := old(stats).loaded + |ChunksOf(file.text)|)
    {
      updated := docsByFile;
      var ext := Lower(Extension(file.name));
      if ext !in ALLOWED_EXTS {
        stats := stats.(skippedExt := stats.skippedExt + 1);
        return;
      }
      var fullPath := Join(dirPath, file.name);
      if file.size > MAX_FILE_SIZE {
        stats := stats.(skippedSize := stats.skippedSize + 1);
        return;
      }
      var chunks := splitter.SplitTextCorrected(file.text);
      var documents := BuildDocuments(chunks.value, fullPath);
      assert documents == DocsFor(fullPath, ChunksOf(file.text));
      updated := Put(docsByFile, fullPath, documents);
      stats := stats.(loaded := stats.loaded + |documents|);
    }

    /**
     * Hands the non-empty entries to the vector store and records their
     * relative paths; `relpath` stands for `os.path.relpath`.  The batch is
     * `None` when nothing is added.
     */
    method IndexDocuments(processedDocs: seq<FileDocs>, relpath: string -> string) returns (batch: Option<Batch>)
      modifies this`indexedFiles, this`manifest
      ensures indexedFiles == old(indexedFiles) + IndexedPaths(processedDocs, relpath)
      ensures AllDocs(processedDocs) == [] ==> batch == None
      ensures AllDocs(processedDocs) != [] ==> batch.Some? && BatchOf(batch.value, AllDocs(processedDocs))
      ensures manifest == ManifestText(indexedFiles)
    {
      var allDocs: seq<Document> := [];
      for i := 0 to |processedDocs|
        invariant allDocs == AllDocs(processedDocs[..i])
        invariant indexedFiles == old(indexedFiles) + IndexedPaths(processedDocs[..i], relpath)
      {
        assert processedDocs[..i + 1][..i] == processedDocs[..i];
        var entry := processedDocs[i];
        if entry.docs == [] {
          continue;
        }
        allDocs := allDocs + entry.docs;
        indexedFiles := indexedFiles + [relpath(entry.path)];
      }
      assert processedDocs[..|processedDocs|] == processedDocs;
      batch := None;
      if allDocs != [] {
        var documents := seq(|allDocs|, i requires 0 <= i < |allDocs| => allDocs[i].pageContent);
        var metadatas := seq(|allDocs|, i requires 0 <= i < |allDocs| => allDocs[i].metadata);
        var ids := seq(|metadatas|, i requires 0 <= i < |metadatas| => FormatId(metadatas[i].fullPath, metadatas[i].chunkId));
        batch := Some(Batch(ids, documents, metadatas));
      }
      SaveIndexedFiles();
    }

    /**
     * The command-line run: load the folder, then index what was loaded.
     * Every id handed to the store is distinct and parses back into its
     * chunk's path and index, and the manifest reads back as the recorded
     * paths whenever none of them holds a newline.
     */
    method IndexFolder(folderPath: string, tree: Dir, relpath: string -> string) returns (batch: Option<Batch>)
      requires Valid()
      modifies this`stats, this`indexedFiles, this`manifest
      ensures var docs := BuildDict(Scanned(folderPath, tree));
        indexedFiles == old(indexedFiles) + IndexedPaths(docs, relpath) &&
        (batch.Some? <==> AllDocs(docs) != []) &&
        (batch.Some? ==> BatchOf(batch.value, AllDocs(docs)))
      ensures stats == StatsAfter(old(stats), Scanned(folderPath, tree))
      ensures batch.Some? ==> IdsSound(batch.value)
      ensures (forall i :: 0 <= i < |indexedFiles| ==> '\n' !in indexedFiles[i]) ==> Lines(manifest) == indexedFiles
    {
      var processedDocs := LoadDocumentsFromFolder(folderPath, tree);
      batch := IndexDocuments(processedDocs, relpath);
      BuildDictWellBuilt(Scanned(folderPath, tree));
      if batch.Some? {
        BatchIdsDistinct(processedDocs, batch.value);
        assert IdsSound(batch.value);
      }
      if forall i :: 0 <= i < |indexedFiles| ==> '\n' !in indexedFiles[i] {
        LinesOfManifest(indexedFiles);
      }
    }

    /** Rewrites the manifest: every recorded path followed by a newline. */
    method SaveIndexedFiles()
      modifies this`manifest
      ensures manifest == ManifestText(indexedFiles)
    {
      manifest := [];
      for i := 0 to |indexedFiles|
        invariant manifest == ManifestText(indexedFiles[..i])
      {
        ManifestTextSnoc(indexedFiles[..i], indexedFiles[i]);
        assert indexedFiles[..i + 1] == indexedFiles[..i] + [indexedFiles[i]];
        manifest := manifest + indexedFiles[i] + "\n";
      }
      assert indexedFiles[..|indexedFiles|] == indexedFiles;
    }
  }
}
