# A verified model of the code indexer

`scripts/code_indexer.py` indexes a source tree for retrieval.

1. It walks a folder, skipping build and tool directories.
2. It keeps the files whose extension is allowed and whose size is within 100 MB.
3. It is meant to split each file's text into overlapping windows of 2500 characters that share 300 characters. As written, the loop never finishes on a non-empty text with these settings (see "## Findings").
4. It turns each window into a `Document` tagged with the file's path and the window's index.
5. It hands all the documents to a vector store under the ids `<path>_<index>`.
6. It records the relative path of every indexed file in a manifest, one per line.

This project models that pipeline in Dafny and proves what it computes.

| file | module | models |
|---|---|---|
| `strings.dfy` | `Strings` | `Option`, `rfind`/`find`, ASCII lower-casing, concatenation |
| `text_splitter.dfy` | `TextSplitter` | `SimpleTextSplitter` and its `split_text` loop, as written and corrected |
| `file_scan.dfy` | `FileScan` | the allowed extensions, the excluded directories, the size limit, `os.path.splitext`, the pruned top-down walk |
| `chunk_ids.dfy` | `ChunkIds` | the id format `f"{full_path}_{chunk_id}"` and its inverse |
| `manifest.dfy` | `Manifest` | the manifest text and reading it back line by line |
| `code_indexer.dfy` | `Indexer` | `CodeIndexer`: `stats`, `load_documents_from_folder`, `index_documents`, `_save_indexed_files` |

## How the model is built

**The splitter is a class with loops.** `SimpleTextSplitter` keeps its two settings. `SplitText` is the `while` loop of `split_text` as written. It is proved equal to the function `Run`, which stops after `fuel` iterations and reports whether the loop exited by itself. The loop as written never exits on a non-empty text when the overlap is positive (see Findings), so the fuel bound is needed.

`SplitTextCorrected` is the same loop with the exit it lacks: it stops once a window reaches the end of the text. It is proved equal to the function `Windows`. The indexer uses this corrected splitter.

**The folder is a tree.** `os.walk` is replaced by a `Dir` tree, and `Walk` lists the directories the walk yields, top-down. A subdirectory whose name is excluded is neither listed nor entered. The top folder is never tested.

**Loading is proved against a specification.** `LoadDocumentsFromFolder` keeps the nested loops of the source: over the directories (`LoadDirectory`), then over the files (`LoadFile`). It updates the `stats` field in place and is proved to return exactly:
- `BuildDict(Scanned(...))`, a fold of `Record` over the files the walk sees;
- with `stats == StatsAfter(old(stats), ...)`.

The Python dict is a sequence of `(path, documents)` entries in insertion order. `Put` replaces the value of an existing key in place and appends a new key at the end.

**Indexing is a class method too.** `IndexDocuments` appends the relative paths of the non-empty entries to `indexedFiles`, which is never cleared. It returns the batch it would hand to the store: parallel `ids`, `documents` and `metadatas`, or `None` when nothing is added. `SaveIndexedFiles` then rewrites `manifest`, the text of the manifest file.

## Model

| member | source | states |
|---|---|---|
| `TextSplitter.SimpleTextSplitter.constructor` | scripts/code_indexer.py:76-78 | the splitter keeps the chunk size and overlap it is given |
| `TextSplitter.SimpleTextSplitter.SplitText` | scripts/code_indexer.py:80-90 | the loop as written emits exactly the chunks of `Run` within `fuel` iterations and reports whether it exited; an empty text gives no chunks and exits |
| `TextSplitter.RunChunksAreWindows` | scripts/code_indexer.py:84-86 | every emitted chunk is `text[s:min(s + size, len)]` for some start `s` inside the text; it is no longer than the chunk size, and not empty when the size is positive |
| `TextSplitter.ZeroOverlapSplits` | scripts/code_indexer.py:84-90 | with overlap 0 and a positive size the loop exits within ceil(len/size) iterations; the chunks are non-empty, all but the last are exactly `size` long, and they concatenate back to the text |
| `TextSplitter.PositiveOverlapNeverHalts` | scripts/code_indexer.py:84-89 | with a positive overlap on a non-empty text the loop never exits: every iteration emits a chunk |
| `TextSplitter.StuckAtTail` | scripts/code_indexer.py:85-89 | after a window that reaches the end, the start becomes `max(0, len - overlap)`; when `0 < overlap <= size` that start maps to itself, so the same tail chunk is emitted for ever |
| `TextSplitter.DefaultConfigLoops` | scripts/code_indexer.py:84-89 | with 2500/300 a 5000-character text gives `[0,2500)`, `[2200,4700)`, `[4400,5000)`, then `[4700,5000)` again and again, without exiting |
| `TextSplitter.NextInsideText` | scripts/code_indexer.py:85-87 | with `overlap < size`, while a window does not reach the end of the text the next start is `start + size - overlap` |
| `TextSplitter.RunConsecutiveOverlap` | scripts/code_indexer.py:85-87 | with `overlap < size`, the loop as written emits chunks where the last `overlap` characters of each chunk at least that long are the first `overlap` characters of the next |
| `TextSplitter.ConsecutiveOverlapAt` | scripts/code_indexer.py:85-87 | that overlap holds at every position `i`: chunk `i` ends with the characters chunk `i + 1` starts with |
| `TextSplitter.SimpleTextSplitter.SplitTextCorrected` | scripts/code_indexer.py:80-90 | the loop with the missing exit returns exactly `Windows(text, ...)`; it refuses (`None`) exactly the settings with a negative overlap or an overlap not below the size |
| `TextSplitter.WindowsFull` | scripts/code_indexer.py:84-90 | the corrected windows are empty exactly for an empty text; each is non-empty and at most `size` long; all but the last are exactly `size` long |
| `TextSplitter.WindowsOverlap` | scripts/code_indexer.py:85-87 | consecutive corrected windows share `overlap` characters: the end of one is the start of the next |
| `TextSplitter.WindowsStitch` | scripts/code_indexer.py:84-90 | dropping the shared overlap from every window after the first and concatenating gives back the text |
| `TextSplitter.ShortTextIsOneWindow` | scripts/code_indexer.py:84-90 | a non-empty text no longer than the size is a single window |
| `TextSplitter.WindowsAgreeAtZeroOverlap` | scripts/code_indexer.py:84-90 | with overlap 0 the corrected loop and the loop as written emit the same chunks, and the latter exits |
| `TextSplitter.DefaultConfigWindows` | scripts/code_indexer.py:13-14 | with the indexer's 2500/300, a 5000-character text gives the three windows `[0,2500)`, `[2200,4700)`, `[4400,5000)` |
| `FileScan.ExtensionIsSplitext` | scripts/code_indexer.py:111 | the extension read from the end of the name equals the reference rule of `os.path.splitext`: the suffix from the last dot, unless everything before that dot is dots |
| `FileScan.ExtensionSpec` | scripts/code_indexer.py:111 | the `splitext` extension is empty exactly when the name has no dot or only leading dots; otherwise it is the suffix from the last dot, with no other dot, preceded by some non-dot character |
| `FileScan.WalkPrunes` | scripts/code_indexer.py:108-109 | the walk starts at the top folder, which is not tested; every other directory lies strictly below it along names none of which is excluded |
| `FileScan.WalkVisitsKeptSubdirs` | scripts/code_indexer.py:108-109 | every direct subdirectory of the walked directory whose name is not excluded is visited, at its joined path |
| `FileScan.SubwalkIn` | scripts/code_indexer.py:108-109 | every visit of the walk of a kept subdirectory is also a visit of its parent's walk |
| `FileScan.WalkVisitsKeptDescendants` | scripts/code_indexer.py:108-109 | every directory reached from the top folder through kept names only, at any depth, is visited at its joined path with its chain of names |
| `FileScan.WalkSound` | scripts/code_indexer.py:108-109 | every visit of the walk is the directory reached from the top folder along kept names, with that directory's path, chain and files; with `WalkVisitsKeptDescendants`, the walk visits exactly those directories, so no file under an excluded directory is ever scanned |
| `ChunkIds.DecimalString` | scripts/code_indexer.py:150 | `str(n)` is a non-empty string of digits with no leading zero |
| `ChunkIds.ParseDecimalString` | scripts/code_indexer.py:150 | reading `str(n)` back gives `n` |
| `ChunkIds.FormatId` | scripts/code_indexer.py:150 | an id starts with the full path followed by `_` |
| `ChunkIds.ParseFormatId` | scripts/code_indexer.py:150 | splitting an id at its last `_` gives back the path and the chunk index |
| `ChunkIds.FormatIdInjective` | scripts/code_indexer.py:150 | distinct (path, index) pairs get distinct ids |
| `Manifest.ManifestTextSnoc` | scripts/code_indexer.py:157-160 | writing one more entry appends that entry and a newline to the text |
| `Manifest.LinesOfManifest` | scripts/code_indexer.py:157-160 | when no entry holds a newline, the manifest read line by line gives back the entries |
| `Indexer.Put` | scripts/code_indexer.py:134 | `d[k] = v` keeps keys distinct; an existing key keeps its position and only its value changes; a new key is appended at the end |
| `Indexer.KeysOfPut` | scripts/code_indexer.py:134 | after `d[k] = v` the keys are the old keys plus `k` |
| `Indexer.BuildDict` | scripts/code_indexer.py:104-137 | the dict the loading loops build has distinct keys |
| `Indexer.BuildDictKeys` | scripts/code_indexer.py:110-134 | a path is a key of the loaded dict exactly when some file seen at that path passes both the extension and the size test |
| `Indexer.BuildDictValues` | scripts/code_indexer.py:126-134 | every entry holds one document per window of an accepted file with that path, in window order |
| `Indexer.BuildDictWellBuilt` | scripts/code_indexer.py:127-132 | under every key the documents carry that path and chunk ids 0, 1, ..., n-1 |
| `Indexer.EmptyFileGetsEmptyList` | scripts/code_indexer.py:126-134 | an accepted empty file still gets an entry, with no documents |
| `Indexer.StatsAfterSnoc` | scripts/code_indexer.py:110-135 | one more file adds 1 to `skipped_ext` or 1 to `skipped_size`, or its number of chunks to `loaded`, according to its verdict; nothing else changes |
| `Indexer.StatsAfterAppend` | scripts/code_indexer.py:108-135 | the counters after two runs of files are the counters after their concatenation |
| `Indexer.OneFileContribution` | scripts/code_indexer.py:110-135 | wherever a file stands among the others, it adds exactly what its verdict says; the extension test comes first, so an oversized file with a disallowed extension counts only under `skipped_ext`; a file of exactly the limit is loaded; `error` is never touched |
| `Indexer.VerdictsPartition` | scripts/code_indexer.py:110-120 | every file seen falls under exactly one verdict |
| `Indexer.BuildDocuments` | scripts/code_indexer.py:127-132 | one document per chunk, in chunk order, with metadata `(full_path, index)` |
| `Indexer.CodeIndexer.constructor` | scripts/code_indexer.py:93-102 | a new indexer has the 2500/300 splitter, zero counters and no indexed files |
| `Indexer.CodeIndexer.LoadDocumentsFromFolder` | scripts/code_indexer.py:104-137 | the loops return exactly the dict `BuildDict` specifies for the files the pruned walk sees, and advance `stats` exactly by `StatsAfter` |
| `Indexer.CodeIndexer.LoadDirectory` | scripts/code_indexer.py:110-135 | the inner loop over one directory's files folds `Record` over them and advances the counters by `StatsAfter` |
| `Indexer.CodeIndexer.LoadFile` | scripts/code_indexer.py:111-135 | one file: the extension test, then the size test, then one document per window stored under its full path; the matching counter moves |
| `Indexer.IndexedPathsExact` | scripts/code_indexer.py:141-145 | a relative path is recorded exactly when some entry with that path has documents; entries with empty lists record nothing |
| `Indexer.AllDocsPaths` | scripts/code_indexer.py:141-144 | in a well-built dict every flattened document's path is a key of the dict |
| `Indexer.AllDocsDistinctMetadata` | scripts/code_indexer.py:141-144 | in a well-built dict no two flattened documents share a (path, chunk id) pair |
| `Indexer.BatchIdsDistinct` | scripts/code_indexer.py:147-150 | every id of the batch parses back into its metadata's path and chunk id, and the ids are pairwise distinct |
| `Indexer.CodeIndexer.IndexDocuments` | scripts/code_indexer.py:139-155 | appends the recorded paths to the old `indexed_files`, so a second call repeats them; the batch is absent exactly when no document is left; otherwise it holds parallel ids, documents and metadatas in insertion order; the manifest is rewritten from all recorded paths |
| `Indexer.CodeIndexer.SaveIndexedFiles` | scripts/code_indexer.py:157-160 | the manifest text is every recorded path followed by a newline |
| `Indexer.CodeIndexer.IndexFolder` | scripts/code_indexer.py:168-170 | load then index: the ids handed to the store are pairwise distinct and parse back into their path and chunk index; the counters and the recorded paths are those of the loaded folder; when no path holds a newline, the manifest reads back as the recorded paths |

## Left out

- Filesystem access is not modelled: `os.walk`, `os.path.getsize`, reading the file and writing the manifest. The folder is a `Dir` tree whose files carry their size and decoded text. The manifest is the string that would be written.
- The failure of `os.path.getsize` (line 117) or `open` (line 122) is not modelled. On a broken symbolic link with an allowed extension, for example, the exception aborts the whole load. The model has no such error path: every file in the tree has a size and a text.
- `os.path.relpath` is a function parameter.
- `os.path.join` is modelled for a name that holds no `/`, and so is `os.path.splitext` (file names from a directory listing never contain one).
- Encoding detection and decoding (`chardet`, `bytes.decode` with `errors="replace"`) are not modelled: the decoded text is an input.
- The embedding model, `collection.add` and `client.persist` are not modelled. `IndexDocuments` returns the batch it would add instead, and what the store does with duplicate ids is outside the model.
- Lower-casing is ASCII only. Python's `str.lower` also folds non-ASCII letters. Every allowed extension is ASCII, but one non-ASCII letter, U+212A KELVIN SIGN, lower-cases to ASCII `k`, so Python loads `x.doc\u212Aerfile` as `.dockerfile`. The model classifies that file as `SkipExt`.
- The `error` counter is kept but nothing in this file increments it.
- Logging and the command-line parsing are not modelled. `IndexFolder` stands for the two calls at the end of the script.
- The chunk size is a natural number. A negative size, which Python slicing would accept, is not modelled.
- SplitText: the loop as written is run for at most `fuel` iterations, because it does not always terminate. The contract speaks of the first `fuel` iterations only.
- LoadFile: calls the corrected splitter where line 127 calls `split_text` as written. With the loop as written, loading any non-empty accepted file with the default settings would never finish.
- LoadDirectory: inherits the corrected splitter from `LoadFile`.
- LoadDocumentsFromFolder: inherits the corrected splitter from `LoadFile`.
- IndexFolder: inherits the corrected splitter from `LoadFile`, so the hang of the script on a non-empty accepted file is not reflected.
- SplitTextCorrected: besides adding the missing exit, it refuses (`None`) a negative overlap. The loop as written terminates on a negative overlap, and so would a loop with only the exit added; its windows would then leave gaps. `Windows` is defined for an overlap in `[0, size)` only.
- `src/embeddings.py`, `src/tools.py`, `src/crew_setup.py` and `src/config.py` are not part of this model. They are wrappers over foreign libraries, dynamic code execution, network calls and configuration.

## Findings

| source | as written | input that shows it | evidently intended | confidence | as-written member | corrected member |
|---|---|---|---|---|---|---|
| scripts/code_indexer.py:84-89 | `start = end - chunk_overlap` also runs after a window that reaches the end of the text, so `start` falls back below the length and the loop never exits on a non-empty text whenever the overlap is positive | any non-empty text with the default 2500/300, e.g. 5000 characters: `[0,2500)`, `[2200,4700)`, `[4400,5000)`, then `[4700,5000)` for ever | stop once a window reaches the end of the text, giving three windows for that input; the corrected member also refuses an overlap that is negative or not below the size (see "## Left out") | high (not executed) | `TextSplitter.DefaultConfigLoops` | `TextSplitter.SimpleTextSplitter.SplitTextCorrected` |
