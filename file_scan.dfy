/**
 * The file scanner of `CodeIndexer.load_documents_from_folder`: the
 * directory tree it walks, the directories it prunes, the extension rule and
 * the order of the extension and size tests.
 */
module FileScan {
  import opened Strings

  const ALLOWED_EXTS: set<string> := {
    ".py", ".js", ".jsx", ".ts", ".tsx", ".md", ".json", ".yml", ".yaml",
    ".txt", ".sh", ".dockerfile", ".html", ".css", ".vue", ".java", ".c",
    ".cpp", ".h", ".cs", ".go", ".php", ".rb", ".rust", ".swift"
  }

  const EXCLUDED_DIRS: set<string> := {
    "node_modules", "venv", ".venv", "__pycache__", ".git", ".idea", "env",
    "dist", "build", ".pytest_cache", "__snapshots__", "chroma_db"
  }

  /** 100 MB */
  const MAX_FILE_SIZE: nat := 100_000_000

  /** A file as the walk lists it: its name, its size in bytes and its decoded text. */
  datatype FileEntry = FileEntry(name: string, size: nat, text: string)

  /** A directory: its name, its subdirectories in listing order, and its files. */
  datatype Dir = Dir(name: string, subdirs: seq<Dir>, files: seq<FileEntry>)

  /**
   * One step of the walk: the directory's path, the names leading to it from
   * the top folder, and its files.
   */
  datatype Visit = Visit(path: string, chain: seq<string>, files: seq<FileEntry>)

  /** `os.path.join(a, b)` for a name `b` that does not start with '/'. */
  function Join(a: string, b: string): string {
    if a == [] || a[|a| - 1] == '/' then a + b else a + "/" + b
  }

  /** Every '.' in `name` is preceded only by '.': no dot at all, or only leading dots. */
  ghost predicate OnlyLeadingDots(name: string) {
    forall k, j :: 0 <= j < k < |name| && name[k] == '.' ==> name[j] == '.'
  }

  /** `s` consists of dots only. */
  function AllDots(s: string): bool {
    s == [] || (s[0] == '.' && AllDots(s[1..]))
  }

  lemma {:induction false} AllDotsMeans(s: string)
    ensures AllDots(s) <==> forall j :: 0 <= j < |s| ==> s[j] == '.'
  {
    if s != [] {
      AllDotsMeans(s[1..]);
      assert forall j :: 1 <= j < |s| ==> s[j] == s[1..][j - 1];
    }
  }

  /**
   * `os.path.splitext(name)[1]` for a file name, read from the end: a final
   * '.' is the extension unless only dots precede it; otherwise the
   * extension of the name without its last character, extended by that
   * character.
   */
  function Extension(name: string): string
    decreases |name|
  {
    if name == [] then []
    else
      var init := name[..|name| - 1];
      var last := name[|name| - 1];
      if last == '.' then (if AllDots(init) then [] else ['.'])
      else
        var e := Extension(init);
        if e == [] then [] else e + [last]
  }

  /**
   * `os.path.splitext`'s rule as stated for the whole name: the suffix from
   * the last '.', provided some character before that dot is not a '.';
   * otherwise empty.
   */
  function SplitextSuffix(name: string): string {
    var d := LastIndexOf(name, '.');
    if d >= 0 && !AllDots(name[..d]) then name[d..] else []
  }

  /** Reading the name from the end gives the same extension as splitting at its last dot. */
  lemma {:induction false} ExtensionIsSplitext(name: string)
    ensures Extension(name) == SplitextSuffix(name)
    decreases |name|
  {
    if name != [] {
      var init := name[..|name| - 1];
      var last := name[|name| - 1];
      if last == '.' {
        assert name[..|name| - 1] == init;
        assert name[|name| - 1..] == ['.'];
      } else {
        ExtensionIsSplitext(init);
        var d := LastIndexOf(init, '.');
        assert LastIndexOf(name, '.') == d;
        if d >= 0 {
          assert name[..d] == init[..d];
          assert name[d..] == init[d..] + [last];
        }
      }
    }
  }

  /**
   * The extension is empty exactly when the name has no dot or only leading
   * dots; otherwise it is the suffix of the name that starts at its last
   * dot, and something other than a dot comes before it.
   */
  lemma ExtensionSpec(name: string)
    ensures var ext := Extension(name);
      (ext == [] <==> OnlyLeadingDots(name)) &&
      (ext != [] ==>
        ext[0] == '.' && '.' !in ext[1..] && |ext| <= |name| && ext == name[|name| - |ext|..] &&
        exists j :: 0 <= j < |name| - |ext| && name[j] != '.')
  {
    ExtensionIsSplitext(name);
    SplitextEmpty(name);
    SplitextShape(name);
  }

  lemma SplitextEmpty(name: string)
    ensures SplitextSuffix(name) == [] <==> OnlyLeadingDots(name)
  {
    var d := LastIndexOf(name, '.');
    LastIndexOfSpec(name, '.');
    if d >= 0 {
      AllDotsMeans(name[..d]);
      assert forall j :: 0 <= j < d ==> name[..d][j] == name[j];
      forall k | d < k < |name| ensures name[k] != '.' {
        assert name[k] == name[d + 1..][k - d - 1];
      }
    }
  }

  lemma SplitextShape(name: string)
    ensures var ext := SplitextSuffix(name);
      ext != [] ==>
        ext[0] == '.' && '.' !in ext[1..] && |ext| <= |name| && ext == name[|name| - |ext|..] &&
        exists j :: 0 <= j < |name| - |ext| && name[j] != '.'
  {
    var d := LastIndexOf(name, '.');
    LastIndexOfSpec(name, '.');
    if d >= 0 && !AllDots(name[..d]) {
      AllDotsMeans(name[..d]);
      var j :| 0 <= j < d && name[..d][j] != '.';
      assert name[j] != '.';
      assert name[d..][1..] == name[d + 1..];
    }
  }

  /** Where a file ends up: counted as a skipped extension, counted as too big, or loaded. */
  datatype Verdict = SkipExt | SkipSize | Accept

  /** The lower-cased extension of `name` is one of the allowed ones. */
  predicate AllowedExt(name: string) {
    Lower(Extension(name)) in ALLOWED_EXTS
  }

  /** The extension test first, then the size test. */
  function Classify(f: FileEntry): Verdict {
    if !AllowedExt(f.name) then SkipExt
    else if f.size > MAX_FILE_SIZE then SkipSize
    else Accept
  }

  /**
   * The directories `os.walk` yields, top-down: `d` itself, then each kept
   * subdirectory's walk in listing order.  The top directory is never tested
   * against the exclusion set; a subdirectory whose name is excluded is
   * neither yielded nor descended into.
   */
  function Walk(path: string, chain: seq<string>, d: Dir): seq<Visit>
    decreases d, |d.subdirs| + 1
  {
    [Visit(path, chain, d.files)] + WalkSubdirs(path, chain, d, 0)
  }

  function WalkSubdirs(path: string, chain: seq<string>, d: Dir, i: nat): seq<Visit>
    requires i <= |d.subdirs|
    decreases d, |d.subdirs| - i
  {
    if i == |d.subdirs| then []
    else
      var sub := d.subdirs[i];
      (if sub.name in EXCLUDED_DIRS then [] else Walk(Join(path, sub.name), chain + [sub.name], sub))
      + WalkSubdirs(path, chain, d, i + 1)
  }

  /** Every visit below `chain` extends it, by excluded-free names only; only the first visit is `chain` itself. */
  ghost predicate PrunedBelow(w: seq<Visit>, chain: seq<string>) {
    forall i :: 0 <= i < |w| ==>
      |chain| <= |w[i].chain| && w[i].chain[..|chain|] == chain &&
      (forall n :: n in w[i].chain[|chain|..] ==> n !in EXCLUDED_DIRS)
  }

  /**
   * The walk starts at the top directory, untested, and every other visit
   * lies strictly below it along names none of which is excluded.
   */
  lemma {:induction false} WalkPrunes(path: string, chain: seq<string>, d: Dir)
    ensures var w := Walk(path, chain, d);
      w[0] == Visit(path, chain, d.files) && PrunedBelow(w, chain) &&
      forall i :: 0 < i < |w| ==> |chain| < |w[i].chain|
    decreases d, |d.subdirs| + 1
  {
    WalkSubdirsPrunes(path, chain, d, 0);
  }

  lemma {:induction false} WalkSubdirsPrunes(path: string, chain: seq<string>, d: Dir, i: nat)
    requires i <= |d.subdirs|
    ensures StrictlyBelow(WalkSubdirs(path, chain, d, i), chain)
    decreases d, |d.subdirs| - i
  {
    if i < |d.subdirs| {
      var sub := d.subdirs[i];
      var head := if sub.name in EXCLUDED_DIRS then [] else Walk(Join(path, sub.name), chain + [sub.name], sub);
      var tail := WalkSubdirs(path, chain, d, i + 1);
      WalkSubdirsPrunes(path, chain, d, i + 1);
      if sub.name !in EXCLUDED_DIRS {
        WalkPrunes(Join(path, sub.name), chain + [sub.name], sub);
        PrunedBelowStep(head, chain, sub.name);
      }
      assert WalkSubdirs(path, chain, d, i) == head + tail;
      StrictlyBelowConcat(head, tail, chain);
    }
  }

  /** Every visit lies strictly below `chain`, along excluded-free names. */
  ghost predicate StrictlyBelow(w: seq<Visit>, chain: seq<string>) {
    PrunedBelow(w, chain) && forall i :: 0 <= i < |w| ==> |chain| < |w[i].chain|
  }

  /** Visits below `chain + [name]` for a kept `name` are strictly below `chain`. */
  lemma PrunedBelowStep(w: seq<Visit>, chain: seq<string>, name: string)
    requires name !in EXCLUDED_DIRS && PrunedBelow(w, chain + [name])
    ensures StrictlyBelow(w, chain)
  {
    var c := chain + [name];
    forall k | 0 <= k < |w|
      ensures |chain| < |w[k].chain| && w[k].chain[..|chain|] == chain
      ensures forall n :: n in w[k].chain[|chain|..] ==> n !in EXCLUDED_DIRS
    {
      var hc := w[k].chain;
      assert hc[..|c|] == c;
      assert hc[..|chain|] == c[..|chain|] == chain;
      assert hc[|chain|..] == [name] + hc[|c|..];
    }
  }

  lemma StrictlyBelowConcat(a: seq<Visit>, b: seq<Visit>, chain: seq<string>)
    requires StrictlyBelow(a, chain) && StrictlyBelow(b, chain)
    ensures StrictlyBelow(a + b, chain)
  {
    var w := a + b;
    forall k | 0 <= k < |w|
      ensures |chain| < |w[k].chain| && w[k].chain[..|chain|] == chain
      ensures forall n :: n in w[k].chain[|chain|..] ==> n !in EXCLUDED_DIRS
    {
      if k < |a| {
        assert w[k] == a[k];
      } else {
        assert w[k] == b[k - |a|];
      }
    }
  }

  /** Every subdirectory whose name is not excluded is visited, at its joined path. */
  lemma WalkVisitsKeptSubdirs(path: string, chain: seq<string>, d: Dir, k: nat)
    requires k < |d.subdirs| && d.subdirs[k].name !in EXCLUDED_DIRS
    ensures var sub := d.subdirs[k];
      Visit(Join(path, sub.name), chain + [sub.name], sub.files) in Walk(path, chain, d)
  {
    var sub := d.subdirs[k];
    var v := Visit(Join(path, sub.name), chain + [sub.name], sub.files);
    assert Walk(Join(path, sub.name), chain + [sub.name], sub)[0] == v;
    SubwalkIn(path, chain, d, 0, k, v);
  }

  /** The walk of a kept subdirectory is part of the walk of its parent. */
  lemma {:induction false} SubwalkIn(path: string, chain: seq<string>, d: Dir, i: nat, k: nat, v: Visit)
    requires i <= k < |d.subdirs| && d.subdirs[k].name !in EXCLUDED_DIRS
    requires v in Walk(Join(path, d.subdirs[k].name), chain + [d.subdirs[k].name], d.subdirs[k])
    ensures v in WalkSubdirs(path, chain, d, i)
    decreases k - i
  {
    var sub := d.subdirs[i];
    var head := if sub.name in EXCLUDED_DIRS then [] else Walk(Join(path, sub.name), chain + [sub.name], sub);
    var tail := WalkSubdirs(path, chain, d, i + 1);
    assert WalkSubdirs(path, chain, d, i) == head + tail;
    if i < k {
      SubwalkIn(path, chain, d, i + 1, k, v);
    }
  }

  /** Following the subdirectory indices `ks` from `d` names a kept directory at every step. */
  ghost predicate KeptPath(d: Dir, ks: seq<nat>)
    decreases |ks|
  {
    ks == [] ||
    (ks[0] < |d.subdirs| && d.subdirs[ks[0]].name !in EXCLUDED_DIRS && KeptPath(d.subdirs[ks[0]], ks[1..]))
  }

  /** The visit of the directory reached from `d` (walked at `path`) along `ks`. */
  ghost function Reached(path: string, chain: seq<string>, d: Dir, ks: seq<nat>): Visit
    requires KeptPath(d, ks)
    decreases |ks|
  {
    if ks == [] then Visit(path, chain, d.files)
    else
      var sub := d.subdirs[ks[0]];
      Reached(Join(path, sub.name), chain + [sub.name], sub, ks[1..])
  }

  /** Every directory reachable from the top through kept names only is visited, at any depth. */
  lemma {:induction false} WalkVisitsKeptDescendants(path: string, chain: seq<string>, d: Dir, ks: seq<nat>)
    requires KeptPath(d, ks)
    ensures Reached(path, chain, d, ks) in Walk(path, chain, d)
    decreases |ks|
  {
    if ks != [] {
      var k := ks[0];
      var sub := d.subdirs[k];
      WalkVisitsKeptDescendants(Join(path, sub.name), chain + [sub.name], sub, ks[1..]);
      SubwalkIn(path, chain, d, 0, k, Reached(path, chain, d, ks));
    }
  }

  /**
   * Every visit of the walk is the directory reached from the top folder
   * along kept names, with that directory's path, chain and files.
   */
  lemma {:induction false} WalkSound(path: string, chain: seq<string>, d: Dir, v: Visit)
    requires v in Walk(path, chain, d)
    ensures exists ks :: KeptPath(d, ks) && Reached(path, chain, d, ks) == v
    decreases d, |d.subdirs| + 1
  {
    if v == Visit(path, chain, d.files) {
      assert KeptPath(d, []) && Reached(path, chain, d, []) == v;
    } else {
      WalkSubdirsSound(path, chain, d, 0, v);
    }
  }

  lemma {:induction false} WalkSubdirsSound(path: string, chain: seq<string>, d: Dir, i: nat, v: Visit)
    requires i <= |d.subdirs| && v in WalkSubdirs(path, chain, d, i)
    ensures exists ks :: KeptPath(d, ks) && Reached(path, chain, d, ks) == v
    decreases d, |d.subdirs| - i
  {
    if i < |d.subdirs| {
      var sub := d.subdirs[i];
      var subPath, subChain := Join(path, sub.name), chain + [sub.name];
      if sub.name !in EXCLUDED_DIRS && v in Walk(subPath, subChain, sub) {
        WalkSound(subPath, subChain, sub, v);
        var rest :| KeptPath(sub, rest) && Reached(subPath, subChain, sub, rest) == v;
        ReachedCons(path, chain, d, i, rest);
      } else {
        assert v in WalkSubdirs(path, chain, d, i + 1) by {
          var head := if sub.name in EXCLUDED_DIRS then [] else Walk(subPath, subChain, sub);
          assert WalkSubdirs(path, chain, d, i) == head + WalkSubdirs(path, chain, d, i + 1);
        }
        WalkSubdirsSound(path, chain, d, i + 1, v);
      }
    }
  }

  /** One step down a kept subdirectory, then along `rest`. */
  lemma ReachedCons(path: string, chain: seq<string>, d: Dir, i: nat, rest: seq<nat>)
    requires i < |d.subdirs| && d.subdirs[i].name !in EXCLUDED_DIRS && KeptPath(d.subdirs[i], rest)
    ensures var sub := d.subdirs[i];
      KeptPath(d, [i] + rest) &&
      Reached(path, chain, d, [i] + rest) == Reached(Join(path, sub.name), chain + [sub.name], sub, rest)
  {
    assert ([i] + rest)[1..] == rest;
  }

  /** A file seen by the scan: its full path and the file. */
  datatype Seen = Seen(fullPath: string, file: FileEntry)

  /** The files of one visit, with `os.path.join(root, file)` as full path. */
  function FilesOf(v: Visit): seq<Seen> {
    seq(|v.files|, k requires 0 <= k < |v.files| => Seen(Join(v.path, v.files[k].name), v.files[k]))
  }

  /** The files the nested loops see, in order. */
  function Visited(w: seq<Visit>): seq<Seen> {
    if w == [] then [] else Visited(w[..|w| - 1]) + FilesOf(w[|w| - 1])
  }

  /** The files a scan of the folder `path`, whose tree is `root`, sees. */
  function Scanned(path: string, root: Dir): seq<Seen> {
    Visited(Walk(path, [], root))
  }
}
