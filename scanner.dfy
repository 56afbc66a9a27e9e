/**
 * The directory walker and the size partitioner (lib/scanner.js).
 *
 * The file system is an abstract tree. A directory is either a listing of entries or a
 * directory whose listing fails (`readdirSync` throws); a regular file carries the outcome of
 * `statSync` on it. Links and other entry kinds (sockets, FIFOs, devices) are kept apart
 * because the walker treats them differently.
 */
module Scanner {
  import opened Wrappers
  import opened JsText
  import opened NodePath
  import opened Grouping

  // ---------------------------------------------------------------- data

  /** What `statSync` reports about a regular file: its size in bytes and its mtime (ms). */
  datatype Stat = Stat(size: nat, mtime: int)

  /** An entry kind, as `readdirSync(dir, { withFileTypes: true })` reports it. */
  datatype Node =
    | File(stat: Outcome<Stat>)
    | Dir(entries: seq<Entry>)
    | UnreadableDir(reason: string)
    | Symlink
    | Special

  datatype Entry = Entry(name: string, node: Node)

  /**
   * The path given on the command line: absent, or present with the kind `statSync` reports.
   * `statSync` follows links, so a link to a file or directory is given as that file or
   * directory, and a dangling link as `Missing` (`existsSync` is false for it); a real target is
   * never `Found(Symlink)`, which `Walk` would report as an unsupported type.
   */
  datatype Target = Missing | Found(node: Node)

  /** One file the walker accepted. */
  datatype FileRecord = FileRecord(path: string, name: string, size: nat, mtime: int)

  /** A path the walker could not list or stat, with the error's message. */
  datatype PathError = PathError(path: string, error: string)

  /** The two arrays the walker fills. */
  datatype ScanLog = ScanLog(files: seq<FileRecord>, errors: seq<PathError>)

  /** The walker's options after defaults: `extensions` is `null` or an array of extensions. */
  datatype ScanOptions = ScanOptions(recursive: bool, extensions: Option<seq<string>>, minSize: int)

  /**
   * The errors `scanDirectory` throws: the target does not exist, it is neither a file nor a
   * directory, or `statSync` on it throws after `existsSync` found it.
   */
  datatype ScanFailure = NotFound(path: string) | UnsupportedType(path: string) | StatFailed(path: string, msg: string)

  /** The message of the thrown error; the first two end with the target path. */
  function FailureMessage(f: ScanFailure): (m: string)
    ensures !f.StatFailed? ==> |f.path| <= |m| && m[|m| - |f.path|..] == f.path
  {
    match f
    case NotFound(p) => "路徑不存在: " + p
    case UnsupportedType(p) => "不支援的路徑類型: " + p
    case StatFailed(_, msg) => msg
  }

  /** Directory names the walker never enters. */
  const SkipDirs: set<string> := {
    "node_modules", ".git", ".svn", ".hg", "dist", "build", ".next", "__pycache__", ".cache",
    ".Trash", "$RECYCLE.BIN"
  }

  predicate IsDirectory(n: Node) { n.Dir? || n.UnreadableDir? }

  predicate IsHidden(name: string) { StartsWith(name, ".") }

  /** An entry the walker looks at: not hidden, not a skipped directory, not a link. */
  predicate Considered(e: Entry) {
    && !IsHidden(e.name)
    && !(IsDirectory(e.node) && e.name in SkipDirs)
    && !e.node.Symlink?
  }

  /** The extension filter is on when `extensions` is a non-empty array. */
  predicate FiltersExtensions(opts: ScanOptions) {
    opts.extensions.Some? && |opts.extensions.value| > 0
  }

  /** The size and extension filters a regular file must pass. */
  predicate Admits(opts: ScanOptions, name: string, size: nat) {
    && size >= opts.minSize
    && (FiltersExtensions(opts) ==> Lower(Extname(name)) in opts.extensions.value)
  }

  /** What every file taken from a directory scan satisfies. */
  predicate Admitted(f: FileRecord, opts: ScanOptions) {
    !IsHidden(f.name) && Admits(opts, f.name, f.size)
  }

  function Append(a: ScanLog, b: ScanLog): ScanLog {
    ScanLog(a.files + b.files, a.errors + b.errors)
  }

  const Empty := ScanLog([], [])

  // ---------------------------------------------------------------- the walk, as functions

  /** What the walker adds for the entries `es` of the directory `dirPath`, in order. */
  function ScanList(dirPath: string, es: seq<Entry>, opts: ScanOptions): ScanLog
    decreases es
  {
    if es == [] then Empty
    else Append(ScanList(dirPath, es[..|es| - 1], opts), EntryLog(dirPath, es[|es| - 1], opts))
  }

  /** What the walker adds for one entry of the directory `dirPath`. */
  function EntryLog(dirPath: string, e: Entry, opts: ScanOptions): ScanLog
    decreases e
  {
    var fullPath := PathJoin(dirPath, e.name);
    if !Considered(e) then Empty
    else if IsDirectory(e.node) then
      if opts.recursive then ScanDir(fullPath, e.node, opts) else Empty
    else if e.node.File? then
      match e.node.stat
      case Fail(msg) => ScanLog([], [PathError(fullPath, msg)])
      case Ok(st) =>
        if Admits(opts, e.name, st.size) then ScanLog([FileRecord(fullPath, e.name, st.size, st.mtime)], [])
        else Empty
    else Empty
  }

  /** What `scan(dirPath)` adds: one error when the listing fails, else its entries' logs. */
  function ScanDir(dirPath: string, n: Node, opts: ScanOptions): ScanLog
    requires IsDirectory(n)
    decreases n
  {
    match n
    case UnreadableDir(reason) => ScanLog([], [PathError(dirPath, reason)])
    case Dir(es) => ScanList(dirPath, es, opts)
  }

  /** The whole of `scanDirectory(targetPath, options)`. */
  function Walk(targetPath: string, target: Target, opts: ScanOptions): Result<ScanLog, ScanFailure> {
    match target
    case Missing => Failure(NotFound(targetPath))
    case Found(File(Fail(msg))) => Failure(StatFailed(targetPath, msg))
    case Found(File(Ok(st))) =>
      Success(ScanLog([FileRecord(targetPath, Basename(targetPath), st.size, st.mtime)], []))
    case Found(n) =>
      if IsDirectory(n) then Success(ScanDir(targetPath, n, opts))
      else Failure(UnsupportedType(targetPath))
  }

  // ---------------------------------------------------------------- the walk, as the source runs it

  /** The closure of `scanDirectory`: its options and the two arrays `scan` pushes into. */
  class Walker {
    const options: ScanOptions
    var files: seq<FileRecord>
    var errors: seq<PathError>

    constructor (options: ScanOptions)
      ensures this.options == options && files == [] && errors == []
    {
      this.options := options;
      files := [];
      errors := [];
    }

    /** `scan(dirPath)`: appends what `ScanDir` describes and nothing else. */
    method Scan(dirPath: string, dir: Node)
      requires IsDirectory(dir)
      modifies this
      ensures files == old(files) + ScanDir(dirPath, dir, options).files
      ensures errors == old(errors) + ScanDir(dirPath, dir, options).errors
      decreases dir
    {
      if dir.UnreadableDir? {
        errors := errors + [PathError(dirPath, dir.reason)];
        return;
      }
      var entries := dir.entries;
      for i := 0 to |entries|
        invariant files == old(files) + ScanList(dirPath, entries[..i], options).files
        invariant errors == old(errors) + ScanList(dirPath, entries[..i], options).errors
      {
        var entry := entries[i];
        ScanListStep(old(files), old(errors), dirPath, entries, i, options);
        var fullPath := PathJoin(dirPath, entry.name);
        if StartsWith(entry.name, ".") {
          continue;
        }
        if IsDirectory(entry.node) && entry.name in SkipDirs {
          continue;
        }
        if entry.node.Symlink? {
          continue;
        }
        if IsDirectory(entry.node) {
          if options.recursive {
            Scan(fullPath, entry.node);
          }
        } else if entry.node.File? {
          if entry.node.stat.Fail? {
            errors := errors + [PathError(fullPath, entry.node.stat.msg)];
            continue;
          }
          var stat := entry.node.stat.value;
          if stat.size < options.minSize {
            continue;
          }
          if options.extensions.Some? && |options.extensions.value| > 0 {
            var ext := Lower(Extname(entry.name));
            if ext !in options.extensions.value {
              continue;
            }
          }
          files := files + [FileRecord(fullPath, entry.name, stat.size, stat.mtime)];
        }
      }
      assert entries[..|entries|] == entries;
    }
  }

  /** `scanDirectory(targetPath, options)`. */
  method ScanDirectory(targetPath: string, target: Target, options: ScanOptions)
    returns (r: Result<ScanLog, ScanFailure>)
    ensures r == Walk(targetPath, target, options)
  {
    if target.Missing? {
      return Failure(NotFound(targetPath));
    }
    var w := new Walker(options);
    var n := target.node;
    if n.File? && n.stat.Fail? {
      return Failure(StatFailed(targetPath, n.stat.msg));
    }
    if n.File? {
      var stat := n.stat.value;
      w.files := w.files + [FileRecord(targetPath, Basename(targetPath), stat.size, stat.mtime)];
      assert w.files == [FileRecord(targetPath, Basename(targetPath), stat.size, stat.mtime)];
      assert target == Found(File(Ok(stat)));
    } else if IsDirectory(n) {
      w.Scan(targetPath, n);
      assert w.files == ScanDir(targetPath, n, options).files;
      assert w.errors == ScanDir(targetPath, n, options).errors;
    } else {
      return Failure(UnsupportedType(targetPath));
    }
    return Success(ScanLog(w.files, w.errors));
  }

  // ---------------------------------------------------------------- properties of the walk

  /**
   * The walk fails exactly when the target is missing, cannot be stat'ed, or is neither a
   * regular file nor a directory; a missing target and an unsupported kind throw their own
   * errors naming the target.
   */
  lemma WalkFails(targetPath: string, target: Target, opts: ScanOptions)
    ensures var r := Walk(targetPath, target, opts);
            r.Failure?
            <==> target.Missing? || (target.node.File? && target.node.stat.Fail?)
                 || !(target.node.File? || IsDirectory(target.node))
    ensures target.Missing? ==> Walk(targetPath, target, opts) == Failure(NotFound(targetPath))
    ensures target.Found? && !(target.node.File? || IsDirectory(target.node))
            ==> Walk(targetPath, target, opts) == Failure(UnsupportedType(targetPath))
  {
  }

  /** A regular file given as the target is the one record, whatever the options say. */
  lemma RootFileIgnoresOptions(targetPath: string, st: Stat, o1: ScanOptions, o2: ScanOptions)
    ensures var r := Walk(targetPath, Found(File(Ok(st))), o1);
            && r == Walk(targetPath, Found(File(Ok(st))), o2)
            && r.Success? && r.value.errors == [] && |r.value.files| == 1
            && r.value.files[0] == FileRecord(targetPath, Basename(targetPath), st.size, st.mtime)
  {
  }

  /** One step of the loop in `Walker.Scan`: the log of `es[..i + 1]` extends that of `es[..i]`. */
  lemma ScanListStep(files: seq<FileRecord>, errors: seq<PathError>, dirPath: string, es: seq<Entry>, i: nat,
                     opts: ScanOptions)
    requires i < |es|
    ensures var l := ScanList(dirPath, es[..i], opts);
            var l' := ScanList(dirPath, es[..i + 1], opts);
            var e := EntryLog(dirPath, es[i], opts);
            && files + l'.files == (files + l.files) + e.files
            && errors + l'.errors == (errors + l.errors) + e.errors
  {
    assert es[..i + 1][..i] == es[..i];
    var l := ScanList(dirPath, es[..i], opts);
    var e := EntryLog(dirPath, es[i], opts);
    assert files + (l.files + e.files) == (files + l.files) + e.files;
    assert errors + (l.errors + e.errors) == (errors + l.errors) + e.errors;
  }

  lemma ScanListSingle(dirPath: string, e: Entry, opts: ScanOptions)
    ensures ScanList(dirPath, [e], opts) == EntryLog(dirPath, e, opts)
  {
    assert [e][..0] == [];
    var l := EntryLog(dirPath, e, opts);
    assert [] + l.files == l.files && [] + l.errors == l.errors;
  }

  /** Scanning a listing in two pieces appends the two pieces' logs. */
  lemma AppendAssoc(x: ScanLog, y: ScanLog, z: ScanLog)
    ensures Append(Append(x, y), z) == Append(x, Append(y, z))
  {
    assert (x.files + y.files) + z.files == x.files + (y.files + z.files);
    assert (x.errors + y.errors) + z.errors == x.errors + (y.errors + z.errors);
  }

  lemma {:induction false} ScanListAppend(dirPath: string, a: seq<Entry>, b: seq<Entry>, opts: ScanOptions)
    ensures ScanList(dirPath, a + b, opts) == Append(ScanList(dirPath, a, opts), ScanList(dirPath, b, opts))
    decreases |b|
  {
    if b == [] {
      assert a + b == a;
      var l := ScanList(dirPath, a, opts);
      assert l.files + [] == l.files && l.errors + [] == l.errors;
    } else {
      var b' := b[..|b| - 1];
      var last := EntryLog(dirPath, b[|b| - 1], opts);
      assert (a + b)[..|a + b| - 1] == a + b';
      assert (a + b)[|a + b| - 1] == b[|b| - 1];
      calc {
        ScanList(dirPath, a + b, opts);
        Append(ScanList(dirPath, a + b', opts), last);
        { ScanListAppend(dirPath, a, b', opts); }
        Append(Append(ScanList(dirPath, a, opts), ScanList(dirPath, b', opts)), last);
        { AppendAssoc(ScanList(dirPath, a, opts), ScanList(dirPath, b', opts), last); }
        Append(ScanList(dirPath, a, opts), Append(ScanList(dirPath, b', opts), last));
        Append(ScanList(dirPath, a, opts), ScanList(dirPath, b, opts));
      }
    }
  }

  /**
   * Hidden entries, directories named in `SkipDirs` and links contribute nothing: the scan of
   * a listing equals the scan of its considered entries alone.
   */
  lemma {:induction false} SkippedEntriesIgnored(dirPath: string, es: seq<Entry>, opts: ScanOptions)
    ensures ScanList(dirPath, es, opts) == ScanList(dirPath, Filter(es, Considered), opts)
  {
    if es != [] {
      var es' := es[..|es| - 1];
      var e := es[|es| - 1];
      SkippedEntriesIgnored(dirPath, es', opts);
      var fs' := Filter(es', Considered);
      var l := ScanList(dirPath, es', opts);
      if Considered(e) {
        var fs := fs' + [e];
        assert fs[..|fs| - 1] == fs';
      } else {
        assert Filter(es, Considered) == fs';
        assert EntryLog(dirPath, e, opts) == Empty;
        assert l.files + [] == l.files && l.errors + [] == l.errors;
      }
    }
  }

  /**
   * A file entry whose stat fails adds exactly one error, under its own path, and the entries
   * after it are still scanned.
   */
  lemma StatFailureRecorded(dirPath: string, a: seq<Entry>, name: string, msg: string, b: seq<Entry>,
                            opts: ScanOptions)
    requires !IsHidden(name)
    ensures var e := Entry(name, File(Fail(msg)));
            ScanList(dirPath, a + [e] + b, opts)
            == Append(Append(ScanList(dirPath, a, opts), ScanLog([], [PathError(PathJoin(dirPath, name), msg)])),
                      ScanList(dirPath, b, opts))
  {
    var e := Entry(name, File(Fail(msg)));
    ScanListAppend(dirPath, a + [e], b, opts);
    ScanListAppend(dirPath, a, [e], opts);
    ScanListSingle(dirPath, e, opts);
  }

  /**
   * In recursive mode a subdirectory that cannot be listed adds exactly one error, under its
   * own path, and the entries after it are still scanned.
   */
  lemma ReaddirFailureRecorded(dirPath: string, a: seq<Entry>, name: string, reason: string, b: seq<Entry>,
                               opts: ScanOptions)
    requires !IsHidden(name) && name !in SkipDirs && opts.recursive
    ensures var e := Entry(name, UnreadableDir(reason));
            ScanList(dirPath, a + [e] + b, opts)
            == Append(Append(ScanList(dirPath, a, opts), ScanLog([], [PathError(PathJoin(dirPath, name), reason)])),
                      ScanList(dirPath, b, opts))
  {
    var e := Entry(name, UnreadableDir(reason));
    ScanListAppend(dirPath, a + [e], b, opts);
    ScanListAppend(dirPath, a, [e], opts);
    ScanListSingle(dirPath, e, opts);
  }

  /** A considered regular file of the listing that passes the filters is among the files. */
  lemma {:induction false} AdmittedFileListed(dirPath: string, es: seq<Entry>, opts: ScanOptions, i: nat)
    requires i < |es| && Considered(es[i]) && es[i].node.File? && es[i].node.stat.Ok?
    requires Admits(opts, es[i].name, es[i].node.stat.value.size)
    ensures var st := es[i].node.stat.value;
            FileRecord(PathJoin(dirPath, es[i].name), es[i].name, st.size, st.mtime) in ScanList(dirPath, es, opts).files
  {
    if i < |es| - 1 {
      AdmittedFileListed(dirPath, es[..|es| - 1], opts, i);
    }
  }

  /**
   * Every file a listing yields passes the filters and is not hidden; in non-recursive mode
   * each is a direct child of the directory.
   */
  lemma {:induction false} ScanListAdmitted(dirPath: string, es: seq<Entry>, opts: ScanOptions)
    ensures var r := ScanList(dirPath, es, opts);
            && (forall f :: f in r.files ==> Admitted(f, opts))
            && (!opts.recursive ==> forall f :: f in r.files ==> f.path == PathJoin(dirPath, f.name))
    decreases es
  {
    if es != [] {
      ScanListAdmitted(dirPath, es[..|es| - 1], opts);
      EntryLogAdmitted(dirPath, es[|es| - 1], opts);
    }
  }

  lemma {:induction false} EntryLogAdmitted(dirPath: string, e: Entry, opts: ScanOptions)
    ensures var r := EntryLog(dirPath, e, opts);
            && (forall f :: f in r.files ==> Admitted(f, opts))
            && (!opts.recursive ==> forall f :: f in r.files ==> f.path == PathJoin(dirPath, f.name))
    decreases e
  {
    if Considered(e) && IsDirectory(e.node) && opts.recursive {
      ScanDirAdmitted(PathJoin(dirPath, e.name), e.node, opts);
    }
  }

  lemma {:induction false} ScanDirAdmitted(dirPath: string, n: Node, opts: ScanOptions)
    requires IsDirectory(n)
    ensures var r := ScanDir(dirPath, n, opts);
            && (forall f :: f in r.files ==> Admitted(f, opts))
            && (!opts.recursive ==> forall f :: f in r.files ==> f.path == PathJoin(dirPath, f.name))
    decreases n
  {
    if n.Dir? {
      ScanListAdmitted(dirPath, n.entries, opts);
    }
  }

  /** A directory target never throws, and lists only admitted files (direct children unless recursive). */
  lemma WalkFilesAdmitted(targetPath: string, n: Node, opts: ScanOptions)
    requires IsDirectory(n)
    ensures var r := Walk(targetPath, Found(n), opts);
            && r.Success?
            && (forall f :: f in r.value.files ==> Admitted(f, opts))
            && (!opts.recursive ==> forall f :: f in r.value.files ==> f.path == PathJoin(targetPath, f.name))
  {
    ScanDirAdmitted(targetPath, n, opts);
  }

  // ---------------------------------------------------------------- the size partitioner

  function SizeOf(f: FileRecord): nat { f.size }

  /**
   * `groupBySize(files)`: the Map from size to files, as its keys in insertion order and its
   * contents.
   */
  method GroupBySize(files: seq<FileRecord>) returns (sizes: seq<nat>, groups: map<nat, seq<FileRecord>>)
    ensures sizes == Keys(files, SizeOf)
    ensures groups == GroupMap(files, SizeOf)
  {
    sizes := [];
    groups := map[];
    for i := 0 to |files|
      invariant sizes == Keys(files[..i], SizeOf)
      invariant groups == GroupMap(files[..i], SizeOf)
    {
      var file := files[i];
      var size := file.size;
      GroupStep(files, i, SizeOf, sizes, groups);
      var group := [];
      if size in groups {
        group := groups[size];
      } else {
        sizes := sizes + [size];
      }
      groups := groups[size := group + [file]];
    }
    assert files[..|files|] == files;
  }

  /** `filterPotentialDuplicates(sizeGroups)`: the lists of more than one file, in key order. */
  method FilterPotentialDuplicates(sizes: seq<nat>, groups: map<nat, seq<FileRecord>>)
    returns (potential: seq<seq<FileRecord>>)
    requires forall s :: s in sizes ==> s in groups
    ensures potential == ListsAt(SharedKeys(sizes, groups), groups)
  {
    potential := [];
    for i := 0 to |sizes|
      invariant potential == ListsAt(SharedKeys(sizes[..i], groups), groups)
    {
      var size := sizes[i];
      SharedListsPrefix(sizes, i, groups);
      var files := groups[size];
      if |files| > 1 {
        potential := potential + [files];
      }
    }
    assert sizes[..|sizes|] == sizes;
  }

  /** The potential-duplicate groups of `files`, as the two steps above compute them. */
  function PotentialGroups(files: seq<FileRecord>): seq<seq<FileRecord>> {
    var m := GroupMap(files, SizeOf);
    ListsAt(SharedKeys(Keys(files, SizeOf), m), m)
  }

  /**
   * Each potential group is every file of one size, in input order, and there are at least
   * two; no two groups have the same size.
   */
  lemma PotentialGroupsSpec(files: seq<FileRecord>)
    ensures var gs := PotentialGroups(files);
            && (forall i :: 0 <= i < |gs| ==>
                  |gs[i]| > 1 && gs[i] == Members(files, SizeOf, gs[i][0].size))
            && (forall i, j :: 0 <= i < j < |gs| ==> gs[i][0].size != gs[j][0].size)
  {
    var m := GroupMap(files, SizeOf);
    var ks := SharedKeys(Keys(files, SizeOf), m);
    var gs: seq<seq<FileRecord>> := PotentialGroups(files);
    forall i | 0 <= i < |gs| ensures |gs[i]| > 1 && gs[i][0].size == ks[i] && gs[i] == Members(files, SizeOf, ks[i]) {
      SharedGroupAt(files, SizeOf, i);
    }
    assert Distinct(ks);
  }

  /** A file whose size another input file shares lies in one of the potential groups. */
  lemma PotentialGroupsCover(files: seq<FileRecord>, f: FileRecord)
    requires f in files && |Members(files, SizeOf, f.size)| > 1
    ensures exists i :: 0 <= i < |PotentialGroups(files)| && f in PotentialGroups(files)[i]
  {
    var m := GroupMap(files, SizeOf);
    var ks := SharedKeys(Keys(files, SizeOf), m);
    var gs: seq<seq<FileRecord>> := PotentialGroups(files);
    SharedKeyCovers(files, SizeOf, f);
    var i :| 0 <= i < |ks| && ks[i] == f.size;
    assert gs[i] == Members(files, SizeOf, f.size);
    assert f in gs[i];
  }
}
