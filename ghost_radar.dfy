/**
 * The command-line program: how `run` turns its options into scan options, the pipeline it
 * drives (scan, group by size, digest, report), and `executeDelete`, which keeps one file of
 * each duplicate set by a retention strategy and unlinks the others.
 */
module GhostRadar {
  import opened Wrappers
  import opened JsText
  import opened Grouping
  import opened StableSort
  import Scanner
  import Hasher

  // ---------------------------------------------------------------- options

  /** An extension in the form the option parser produces: a leading `.`, no upper-case letter, no trailing white space. */
  predicate IsNormalExtension(e: string) {
    && StartsWith(e, ".")
    && !IsWhiteSpace(e[|e| - 1])
    && forall i :: 0 <= i < |e| ==> !IsAsciiUpper(e[i])
  }

  /** One `--ext` token: trimmed, lower-cased, and given a leading `.` when it has none. */
  function NormalizeExtension(e: string): (r: string)
    ensures IsNormalExtension(r)
    ensures var t := Lower(Trim(e)); |t| <= |r| <= |t| + 1 && r[|r| - |t|..] == t
    ensures var t := Lower(Trim(e)); |r| == |t| <==> StartsWith(t, ".")
  {
    var t := Lower(Trim(e));
    LowerTrimmed(e);
    DotPrefixed(t);
    if StartsWith(t, ".") then t else "." + t
  }

  /** Lower-casing a trimmed token leaves no upper-case letter and no trailing white space. */
  lemma LowerTrimmed(e: string)
    ensures var t := Lower(Trim(e));
            && (forall i :: 0 <= i < |t| ==> !IsAsciiUpper(t[i]))
            && (t != [] ==> !IsWhiteSpace(t[|t| - 1]))
  {
    var u := Trim(e);
    var t := Lower(u);
    if t != [] {
      LowerKeepsNonSpace(u[|u| - 1]);
      assert t[|t| - 1] == LowerChar(u[|u| - 1]);
    }
  }

  lemma LowerKeepsNonSpace(c: char)
    requires !IsWhiteSpace(c)
    ensures !IsWhiteSpace(LowerChar(c))
  {
  }

  lemma DotPrefixed(t: string)
    requires forall i :: 0 <= i < |t| ==> !IsAsciiUpper(t[i])
    requires t != [] ==> !IsWhiteSpace(t[|t| - 1])
    ensures var r := if StartsWith(t, ".") then t else "." + t;
            IsNormalExtension(r) && |t| <= |r| <= |t| + 1 && r[|r| - |t|..] == t
            && (|r| == |t| <==> StartsWith(t, "."))
  {
    if !StartsWith(t, ".") {
      var r := "." + t;
      assert r[1..] == t;
      assert forall i :: 1 <= i < |r| ==> r[i] == t[i - 1];
    }
  }

  lemma TrimUnchanged(s: string)
    requires s != [] && !IsWhiteSpace(s[0]) && !IsWhiteSpace(s[|s| - 1])
    ensures Trim(s) == s
  {
    assert TrimStart(s) == s;
  }

  /** Normalising leaves a normal extension as it is. */
  lemma NormalExtensionFixed(e: string)
    requires IsNormalExtension(e)
    ensures NormalizeExtension(e) == e
  {
    TrimUnchanged(e);
    assert Lower(e) == e;
  }

  /** So normalising twice is normalising once. */
  lemma NormalizeExtensionIdempotent(e: string)
    ensures NormalizeExtension(NormalizeExtension(e)) == NormalizeExtension(e)
  {
    NormalExtensionFixed(NormalizeExtension(e));
  }

  /**
   * The `--ext` option: absent or empty means no filter; otherwise the comma-separated tokens,
   * each normalised, in order.
   */
  function ParseExtensions(ext: Option<string>): (r: Option<seq<string>>)
    ensures r.None? <==> ext.None? || ext.value == ""
    ensures r.Some? ==> forall x :: x in r.value ==> IsNormalExtension(x)
    ensures r.Some? ==> var ps := Split(ext.value, ',');
              |r.value| == |ps| && forall i :: 0 <= i < |ps| ==> r.value[i] == NormalizeExtension(ps[i])
  {
    if ext.None? || ext.value == "" then None
    else
      var parts := Split(ext.value, ',');
      Some(seq(|parts|, i requires 0 <= i < |parts| => NormalizeExtension(parts[i])))
  }

  /**
   * Normal, comma-free extensions joined with commas parse back to themselves: the parser
   * is the inverse of writing the list out.
   */
  lemma {:induction false} ParseJoinedExtensions(exts: seq<string>)
    requires |exts| >= 1
    requires forall x :: x in exts ==> IsNormalExtension(x) && ',' !in x
    ensures ParseExtensions(Some(Join(exts, ','))) == Some(exts)
  {
    JoinThenSplit(exts, ',');
    assert exts[0] in exts;
    JoinedNotEmpty(exts);
    NormalExtensionsFixed(exts);
  }

  lemma JoinedNotEmpty(exts: seq<string>)
    requires |exts| >= 1 && exts[0] != "" && forall x :: x in exts ==> ',' !in x
    ensures Join(exts, ',') != ""
  {
    JoinThenSplit(exts, ',');
    assert exts[0] in exts;
  }

  lemma NormalExtensionsFixed(exts: seq<string>)
    requires forall x :: x in exts ==> IsNormalExtension(x)
    ensures seq(|exts|, i requires 0 <= i < |exts| => NormalizeExtension(exts[i])) == exts
  {
    forall i | 0 <= i < |exts| ensures NormalizeExtension(exts[i]) == exts[i] {
      assert exts[i] in exts;
      NormalExtensionFixed(exts[i]);
    }
  }

  /** `parseInt(minSize, 10) || 1`: a value that does not parse, or parses to 0, becomes 1. */
  function MinSize(s: string): (r: int)
    ensures r != 0
    ensures ParseInt(s).None? ==> r == 1
    ensures ParseInt(s) == Some(0) ==> r == 1
    ensures ParseInt(s).Some? && ParseInt(s).value != 0 ==> r == ParseInt(s).value
  {
    match ParseInt(s)
    case None => 1
    case Some(n) => if n == 0 then 1 else n
  }

  /** Any integer written in decimal is read back as the minimum size, except 0, which becomes 1. */
  lemma MinSizeOfDecimal(n: int)
    ensures MinSize(DecimalString(n)) == if n == 0 then 1 else n
  {
    ParseIntDecimal(n);
  }

  // ---------------------------------------------------------------- retention

  /**
   * The sort key of a `--keep` strategy: `newest` sorts by mtime descending, `shortest` by path
   * length, and `oldest` or any other value by mtime ascending.
   */
  function KeepKey(strategy: string): Hasher.HashedFile -> int {
    if strategy == "newest" then (f: Hasher.HashedFile) => -f.file.mtime
    else if strategy == "shortest" then (f: Hasher.HashedFile) => |f.file.path|
    else (f: Hasher.HashedFile) => f.file.mtime
  }

  /** `sortedFiles`: a copy of the set's files in retention order; the first one is kept. */
  function Retention(files: seq<Hasher.HashedFile>, strategy: string): (r: seq<Hasher.HashedFile>)
    ensures multiset(r) == multiset(files)
    ensures SortedBy(r, KeepKey(strategy))
  {
    SortBySorted(files, KeepKey(strategy));
    SortBy(files, KeepKey(strategy))
  }

  /**
   * The kept file and the files to delete are the set's files, rearranged. The kept file is the
   * best under the strategy, and every file before it in the set is strictly worse, so ties go
   * to the earliest.
   */
  lemma KeptFile(files: seq<Hasher.HashedFile>, strategy: string)
    requires files != []
    ensures var sorted := Retention(files, strategy);
            var key := KeepKey(strategy);
            && multiset([sorted[0]] + sorted[1..]) == multiset(files)
            && (exists j :: 0 <= j < |files| && sorted[0] == files[j]
                  && forall i :: 0 <= i < j ==> key(files[i]) > key(files[j]))
            && (strategy == "newest" ==>
                  forall f :: f in files ==> f.file.mtime <= sorted[0].file.mtime)
            && (strategy == "shortest" ==>
                  forall f :: f in files ==> |sorted[0].file.path| <= |f.file.path|)
            && (strategy != "newest" && strategy != "shortest" ==>
                  forall f :: f in files ==> sorted[0].file.mtime <= f.file.mtime)
  {
    var key := KeepKey(strategy);
    var sorted := Retention(files, strategy);
    SortByHead(files, key);
    assert [sorted[0]] + sorted[1..] == sorted;
    forall f | f in files ensures key(sorted[0]) <= key(f) {
      var i :| 0 <= i < |files| && files[i] == f;
    }
  }

  // ---------------------------------------------------------------- deletion

  datatype FailedDelete = FailedDelete(path: string, error: string)

  datatype DeleteReport = DeleteReport(deletedCount: nat, deletedSize: int, failedDeletes: seq<FailedDelete>)

  predicate NonEmptySets(groups: seq<Hasher.DuplicateSet>) {
    forall g :: g in groups ==> g.files != []
  }

  /**
   * `toDelete` of one set: its files in retention order, all but the first. (Destructuring an
   * empty array gives an empty rest.)
   */
  function RestOf(files: seq<Hasher.HashedFile>, strategy: string): (r: seq<Hasher.HashedFile>)
    ensures |r| == if files == [] then 0 else |files| - 1
  {
    var sorted := Retention(files, strategy);
    if sorted == [] then [] else sorted[1..]
  }

  /** Every file `executeDelete` tries to unlink: each set's `toDelete`, set by set. */
  function ToDelete(groups: seq<Hasher.DuplicateSet>, strategy: string): seq<Hasher.HashedFile> {
    if groups == [] then []
    else ToDelete(groups[..|groups| - 1], strategy) + RestOf(groups[|groups| - 1].files, strategy)
  }

  /** The file each set keeps. */
  function KeptFiles(groups: seq<Hasher.DuplicateSet>, strategy: string): seq<Hasher.HashedFile>
    requires NonEmptySets(groups)
  {
    seq(|groups|, i requires 0 <= i < |groups| => Retention(groups[i].files, strategy)[0])
  }

  /** Every file of every set, set by set. */
  function AllFiles(groups: seq<Hasher.DuplicateSet>): seq<Hasher.HashedFile> {
    if groups == [] then [] else AllFiles(groups[..|groups| - 1]) + groups[|groups| - 1].files
  }

  function PathsOf(files: seq<Hasher.HashedFile>): seq<string> {
    if files == [] then [] else PathsOf(files[..|files| - 1]) + [files[|files| - 1].file.path]
  }

  /** One unlink: a success counts the file and its size, a failure records its path and message. */
  function Attempt(report: DeleteReport, f: Hasher.HashedFile, unlinkError: string -> Option<string>): DeleteReport {
    match unlinkError(f.file.path)
    case None => DeleteReport(report.deletedCount + 1, report.deletedSize + f.file.size, report.failedDeletes)
    case Some(msg) => DeleteReport(report.deletedCount, report.deletedSize,
                                   report.failedDeletes + [FailedDelete(f.file.path, msg)])
  }

  /** The counters after trying to unlink `files` in order. */
  function DeleteAll(files: seq<Hasher.HashedFile>, unlinkError: string -> Option<string>): DeleteReport {
    if files == [] then DeleteReport(0, 0, [])
    else Attempt(DeleteAll(files[..|files| - 1], unlinkError), files[|files| - 1], unlinkError)
  }

  function Unlinked(unlinkError: string -> Option<string>): Hasher.HashedFile -> bool {
    (f: Hasher.HashedFile) => unlinkError(f.file.path).None?
  }

  function Refused(unlinkError: string -> Option<string>): Hasher.HashedFile -> bool {
    (f: Hasher.HashedFile) => unlinkError(f.file.path).Some?
  }

  function FileSize(f: Hasher.HashedFile): int { f.file.size }

  /**
   * The counters are what a best-effort deletion promises: the files whose unlink succeeded
   * are counted with their sizes; every other file has one failure entry, in order, with its
   * path and message; so the two counts add up to the files tried.
   */
  lemma {:induction false} DeleteAllSpec(files: seq<Hasher.HashedFile>, unlinkError: string -> Option<string>)
    ensures var r := DeleteAll(files, unlinkError);
            var ok := Filter(files, Unlinked(unlinkError));
            var bad := Filter(files, Refused(unlinkError));
            && r.deletedCount == |ok|
            && r.deletedSize == SumOf(ok, FileSize)
            && |r.failedDeletes| == |bad|
            && (forall i :: 0 <= i < |bad| ==>
                  r.failedDeletes[i].path == bad[i].file.path
                  && unlinkError(bad[i].file.path) == Some(r.failedDeletes[i].error))
            && r.deletedCount + |r.failedDeletes| == |files|
  {
    if files != [] {
      var init := files[..|files| - 1];
      var f := files[|files| - 1];
      DeleteAllSpec(init, unlinkError);
      var okInit := Filter(init, Unlinked(unlinkError));
      var badInit := Filter(init, Refused(unlinkError));
      var r := DeleteAll(files, unlinkError);
      assert r == Attempt(DeleteAll(init, unlinkError), f, unlinkError);
      if unlinkError(f.file.path).None? {
        assert Filter(files, Unlinked(unlinkError)) == okInit + [f];
        assert Filter(files, Refused(unlinkError)) == badInit;
        SumOfConcat(okInit, [f], FileSize);
        assert SumOf([f], FileSize) == f.file.size;
      } else {
        assert Filter(files, Unlinked(unlinkError)) == okInit;
        assert Filter(files, Refused(unlinkError)) == badInit + [f];
      }
    }
  }

  /** The files tried number Σ(|files| - 1) over the sets: the duplicate count of the result. */
  lemma {:induction false} ToDeleteCount(groups: seq<Hasher.DuplicateSet>, strategy: string)
    requires NonEmptySets(groups)
    ensures |ToDelete(groups, strategy)| == SumOf(groups, Hasher.Extra)
  {
    if groups != [] {
      var init := groups[..|groups| - 1];
      var last := groups[|groups| - 1];
      SumOfSnoc(groups, Hasher.Extra);
      NonEmptyInit(groups);
      ToDeleteCount(init, strategy);
      assert last.files != [] by { assert last in groups; }
    }
  }

  lemma NonEmptyInit(groups: seq<Hasher.DuplicateSet>)
    requires groups != [] && NonEmptySets(groups)
    ensures NonEmptySets(groups[..|groups| - 1])
  {
    forall g | g in groups[..|groups| - 1] ensures g.files != [] { assert g in groups; }
  }

  lemma KeptFilesLast(groups: seq<Hasher.DuplicateSet>, strategy: string)
    requires groups != [] && NonEmptySets(groups)
    ensures NonEmptySets(groups[..|groups| - 1])
    ensures KeptFiles(groups, strategy)
         == KeptFiles(groups[..|groups| - 1], strategy) + [Retention(groups[|groups| - 1].files, strategy)[0]]
  {
    var init := groups[..|groups| - 1];
    NonEmptyInit(groups);
    SeqSnocExt(KeptFiles(groups, strategy), KeptFiles(init, strategy), Retention(groups[|groups| - 1].files, strategy)[0]);
  }

  /** Kept files and files to delete are, together, every file of every set, each once. */
  lemma {:induction false} RetentionPartition(groups: seq<Hasher.DuplicateSet>, strategy: string)
    requires NonEmptySets(groups)
    ensures multiset(KeptFiles(groups, strategy)) + multiset(ToDelete(groups, strategy))
         == multiset(AllFiles(groups))
  {
    if groups != [] {
      var init := groups[..|groups| - 1];
      var last := groups[|groups| - 1];
      KeptFilesLast(groups, strategy);
      RetentionPartition(init, strategy);
      assert last in groups;
      var sorted := Retention(last.files, strategy);
      assert [sorted[0]] + sorted[1..] == sorted;
      assert multiset(sorted) == multiset(last.files);
    }
  }

  /** When no file appears twice among the sets, a kept file is never among the files unlinked. */
  lemma {:induction false} KeptNeverUnlinked(groups: seq<Hasher.DuplicateSet>, strategy: string)
    requires NonEmptySets(groups)
    requires forall f :: multiset(AllFiles(groups))[f] <= 1
    ensures forall k :: k in KeptFiles(groups, strategy) ==> k !in ToDelete(groups, strategy)
  {
    RetentionPartition(groups, strategy);
    var kept := KeptFiles(groups, strategy);
    var doomed := ToDelete(groups, strategy);
    forall k | k in kept ensures k !in doomed {
      assert multiset(kept)[k] >= 1;
      assert multiset(AllFiles(groups))[k] == multiset(kept)[k] + multiset(doomed)[k];
    }
  }

  /**
   * When no two files of the sets share a path, the path of a kept file is never passed to
   * unlink.
   */
  lemma KeptPathNeverUnlinked(groups: seq<Hasher.DuplicateSet>, strategy: string)
    requires NonEmptySets(groups)
    requires DistinctPaths(AllFiles(groups))
    ensures forall k :: k in KeptFiles(groups, strategy) ==> k.file.path !in PathsOf(ToDelete(groups, strategy))
  {
    var all := AllFiles(groups);
    var kept := KeptFiles(groups, strategy);
    var doomed := ToDelete(groups, strategy);
    DistinctPathsOnce(all);
    KeptNeverUnlinked(groups, strategy);
    PartitionMembers(groups, strategy);
    forall k | k in kept ensures k.file.path !in PathsOf(doomed) {
      forall d | d in doomed ensures d.file.path != k.file.path {
        OtherFileOtherPath(all, k, d);
      }
      PathsOfMembers(doomed, k.file.path);
    }
  }

  /** The kept files and the files to delete are all files of the sets. */
  lemma PartitionMembers(groups: seq<Hasher.DuplicateSet>, strategy: string)
    requires NonEmptySets(groups)
    ensures forall k :: k in KeptFiles(groups, strategy) ==> k in AllFiles(groups)
    ensures forall d :: d in ToDelete(groups, strategy) ==> d in AllFiles(groups)
  {
    var all := AllFiles(groups);
    var kept := KeptFiles(groups, strategy);
    var doomed := ToDelete(groups, strategy);
    RetentionPartition(groups, strategy);
    SplitMembers(kept, doomed, all);
  }

  /** Two different files among files with distinct paths have different paths. */
  lemma OtherFileOtherPath(all: seq<Hasher.HashedFile>, k: Hasher.HashedFile, d: Hasher.HashedFile)
    requires DistinctPaths(all) && k in all && d in all && k != d
    ensures k.file.path != d.file.path
  {
    var i :| 0 <= i < |all| && all[i] == d;
    var j :| 0 <= j < |all| && all[j] == k;
    assert i != j;
  }

  /** No two of the files share a path. */
  predicate DistinctPaths(files: seq<Hasher.HashedFile>) {
    forall i, j :: 0 <= i < j < |files| ==> files[i].file.path != files[j].file.path
  }

  /** A path passed to unlink is the path of one of the files. */
  lemma {:induction false} PathsOfMembers(files: seq<Hasher.HashedFile>, p: string)
    requires forall f :: f in files ==> f.file.path != p
    ensures p !in PathsOf(files)
  {
    if files != [] {
      var init := files[..|files| - 1];
      assert forall f :: f in init ==> f in files;
      PathsOfMembers(init, p);
      assert files[|files| - 1] in files;
    }
  }

  /** Files with pairwise distinct paths occur at most once each. */
  lemma {:induction false} DistinctPathsOnce(s: seq<Hasher.HashedFile>)
    requires DistinctPaths(s)
    ensures forall f :: multiset(s)[f] <= 1
  {
    if s != [] {
      var init := s[..|s| - 1];
      var x := s[|s| - 1];
      assert forall i, j :: 0 <= i < j < |init| ==> init[i] == s[i] && init[j] == s[j];
      DistinctPathsOnce(init);
      assert s == init + [x];
      forall i | 0 <= i < |init| ensures init[i] != x {
        assert init[i] == s[i];
      }
      assert x !in init;
    }
  }

  /** Every file of the set carries the set's digest. */
  predicate OneDigest(g: Hasher.DuplicateSet) {
    g.files != [] && forall f :: f in g.files ==> f.hash == Some(g.hash)
  }

  lemma SetTwin(g: Hasher.DuplicateSet, strategy: string)
    requires OneDigest(g)
    ensures Retention(g.files, strategy)[0] in g.files
    ensures forall f :: f in RestOf(g.files, strategy) ==>
              f in g.files && f.hash == Retention(g.files, strategy)[0].hash == Some(g.hash)
  {
    var sorted := Retention(g.files, strategy);
    assert sorted[0] in multiset(g.files);
    forall f | f in RestOf(g.files, strategy) ensures f in g.files && f.hash == Some(g.hash) {
      assert f in multiset(sorted);
    }
  }

  /** `f` belongs to some set whose digest it carries, and that set keeps another file of that digest. */
  predicate HasKeptTwin(f: Hasher.HashedFile, groups: seq<Hasher.DuplicateSet>, kept: seq<Hasher.HashedFile>) {
    exists i :: 0 <= i < |groups| && i < |kept| && f in groups[i].files && kept[i] in groups[i].files
                && f.hash == kept[i].hash == Some(groups[i].hash)
  }

  lemma TwinExtends(f: Hasher.HashedFile, groups: seq<Hasher.DuplicateSet>, kept: seq<Hasher.HashedFile>,
                    g: Hasher.DuplicateSet, k: Hasher.HashedFile)
    requires HasKeptTwin(f, groups, kept)
    ensures HasKeptTwin(f, groups + [g], kept + [k])
  {
    var i :| 0 <= i < |groups| && i < |kept| && f in groups[i].files && kept[i] in groups[i].files
             && f.hash == kept[i].hash == Some(groups[i].hash);
    assert (kept + [k])[i] == kept[i] && (groups + [g])[i] == groups[i];
  }

  /**
   * When every set holds one digest (as every set `findDuplicates` returns does), only a file
   * whose digest equals the digest of a kept file is ever unlinked.
   */
  lemma {:induction false} DeletedHaveKeptTwin(groups: seq<Hasher.DuplicateSet>, strategy: string)
    requires forall g :: g in groups ==> OneDigest(g)
    ensures NonEmptySets(groups)
    ensures forall f :: f in ToDelete(groups, strategy) ==> HasKeptTwin(f, groups, KeptFiles(groups, strategy))
  {
    if groups != [] {
      var init := groups[..|groups| - 1];
      var n := |groups| - 1;
      var last := groups[n];
      assert last in groups;
      assert forall g :: g in init ==> g in groups;
      KeptFilesLast(groups, strategy);
      DeletedHaveKeptTwin(init, strategy);
      SetTwin(last, strategy);
      var keep := Retention(last.files, strategy)[0];
      assert groups == init + [last];
      forall f | f in ToDelete(groups, strategy)
        ensures HasKeptTwin(f, groups, KeptFiles(groups, strategy))
      {
        if f in ToDelete(init, strategy) {
          TwinExtends(f, init, KeptFiles(init, strategy), last, keep);
        } else {
          assert KeptFiles(groups, strategy)[n] == keep;
        }
      }
    }
  }

  // ---------------------------------------------------------------- executeDelete

  lemma ToDeleteStep(groups: seq<Hasher.DuplicateSet>, i: nat, strategy: string)
    requires i < |groups| && NonEmptySets(groups)
    ensures |Retention(groups[i].files, strategy)| >= 1
    ensures ToDelete(groups[..i + 1], strategy)
         == ToDelete(groups[..i], strategy) + Retention(groups[i].files, strategy)[1..]
  {
    assert groups[i] in groups;
    assert groups[..i + 1][..i] == groups[..i];
  }

  lemma AttemptStep(before: seq<Hasher.HashedFile>, rest: seq<Hasher.HashedFile>, j: nat,
                    unlinkError: string -> Option<string>)
    requires j < |rest|
    ensures DeleteAll(before + rest[..j + 1], unlinkError)
         == Attempt(DeleteAll(before + rest[..j], unlinkError), rest[j], unlinkError)
    ensures PathsOf(before + rest[..j + 1]) == PathsOf(before + rest[..j]) + [rest[j].file.path]
  {
    var done := before + rest[..j + 1];
    assert done[..|done| - 1] == before + rest[..j];
    assert done[|done| - 1] == rest[j];
  }

  /**
   * `executeDelete`: unless the answer, lower-cased, is `yes`, nothing happens. Otherwise each
   * set keeps its first file in retention order and every other file is unlinked, set by set;
   * a failed unlink is recorded and the loop goes on. `unlinked` lists the paths passed to
   * unlink, in order.
   */
  method ExecuteDelete(groups: seq<Hasher.DuplicateSet>, keepStrategy: string, answer: string,
                       unlinkError: string -> Option<string>)
    returns (report: Option<DeleteReport>, unlinked: seq<string>)
    requires NonEmptySets(groups)
    ensures Lower(answer) != "yes" ==> report == None && unlinked == []
    ensures Lower(answer) == "yes" ==>
              && report == Some(DeleteAll(ToDelete(groups, keepStrategy), unlinkError))
              && unlinked == PathsOf(ToDelete(groups, keepStrategy))
  {
    if Lower(answer) != "yes" {
      return None, [];
    }
    var deletedCount: nat := 0;
    var deletedSize := 0;
    var failedDeletes: seq<FailedDelete> := [];
    unlinked := [];
    for i := 0 to |groups|
      invariant DeleteReport(deletedCount, deletedSize, failedDeletes)
             == DeleteAll(ToDelete(groups[..i], keepStrategy), unlinkError)
      invariant unlinked == PathsOf(ToDelete(groups[..i], keepStrategy))
    {
      ToDeleteStep(groups, i, keepStrategy);
      var sortedFiles := Retention(groups[i].files, keepStrategy);
      // sortedFiles[0] is kept; the source only shows it on the console.
      var toDelete := sortedFiles[1..];
      ghost var before := ToDelete(groups[..i], keepStrategy);
      TakeNone(before, toDelete);
      for j := 0 to |toDelete|
        invariant DeleteReport(deletedCount, deletedSize, failedDeletes)
               == DeleteAll(before + toDelete[..j], unlinkError)
        invariant unlinked == PathsOf(before + toDelete[..j])
      {
        AttemptStep(before, toDelete, j, unlinkError);
        var file := toDelete[j];
        unlinked := unlinked + [file.file.path];
        match unlinkError(file.file.path)
        case None =>
          deletedCount := deletedCount + 1;
          deletedSize := deletedSize + file.file.size;
        case Some(msg) =>
          failedDeletes := failedDeletes + [FailedDelete(file.file.path, msg)];
      }
      TakeAll(before, toDelete);
    }
    assert groups[..|groups|] == groups;
    report := Some(DeleteReport(deletedCount, deletedSize, failedDeletes));
  }

  // ---------------------------------------------------------------- run

  /** The options `run` reads (the digest algorithm, `--hash` and the output format aside). */
  datatype CliOptions = CliOptions(recursive: bool, ext: Option<string>, minSize: string,
                                   yes: bool, keep: string, json: bool)

  function ScanOptionsOf(o: CliOptions): Scanner.ScanOptions {
    Scanner.ScanOptions(o.recursive, ParseExtensions(o.ext), MinSize(o.minSize))
  }

  /**
   * What one run computes: the scan, the potential groups, the result, the progress calls made,
   * and, when deletion went ahead, its counters and the paths passed to unlink.
   */
  datatype RunReport = RunReport(files: seq<Scanner.FileRecord>, errors: seq<Scanner.PathError>,
                                 potentialGroups: seq<seq<Scanner.FileRecord>>, result: Hasher.ScanResult,
                                 progress: seq<Hasher.Progress>, deletion: Option<DeleteReport>,
                                 unlinked: seq<string>)

  const NoDuplicates := Hasher.ScanResult([], 0, 0, 0)

  /** No potential group means no duplicate set and no progress call. */
  lemma NothingToHash(digest: string -> Outcome<string>)
    ensures Hasher.FindDuplicatesResult([], digest) == NoDuplicates
    ensures Hasher.ProgressOf([], 0) == []
  {
    assert Hasher.AllSets([], digest) == [];
  }

  /**
   * `run`: a failed scan ends the run with its message. Otherwise the files are grouped by
   * size and the groups sharing a size are digested. Deletion follows only when `--yes` is set,
   * the output is not JSON, there is at least one duplicate set, and the answer is `yes`.
   */
  method Run(targetPath: string, target: Scanner.Target, o: CliOptions, digest: string -> Outcome<string>,
             answer: string, unlinkError: string -> Option<string>)
    returns (r: Result<RunReport, string>)
    ensures var w := Scanner.Walk(targetPath, target, ScanOptionsOf(o));
            w.Failure? ==> r == Failure(Scanner.FailureMessage(w.error))
    ensures var w := Scanner.Walk(targetPath, target, ScanOptionsOf(o));
            w.Success? ==>
              r.Success? && r.value.files == w.value.files && r.value.errors == w.value.errors
    ensures r.Success? ==>
              var rep := r.value;
              && rep.potentialGroups == Scanner.PotentialGroups(rep.files)
              && rep.result == Hasher.FindDuplicatesResult(rep.potentialGroups, digest)
              && rep.progress == (if o.json then []
                                  else Hasher.ProgressOf(rep.potentialGroups, TotalLength(rep.potentialGroups)))
              && (rep.deletion.Some? <==>
                    o.yes && !o.json && rep.result.totalGroups > 0 && Lower(answer) == "yes")
              && (rep.deletion.Some? ==>
                    && NonEmptySets(rep.result.groups)
                    && rep.deletion.value == DeleteAll(ToDelete(rep.result.groups, o.keep), unlinkError)
                    && rep.unlinked == PathsOf(ToDelete(rep.result.groups, o.keep)))
              && (rep.deletion.None? ==> rep.unlinked == [])
  {
    var scanned := Scanner.ScanDirectory(targetPath, target, ScanOptionsOf(o));
    if scanned.Failure? {
      return Failure(Scanner.FailureMessage(scanned.error));
    }
    var files := scanned.value.files;
    var errors := scanned.value.errors;
    NothingToHash(digest);
    if |files| == 0 {
      return Success(RunReport(files, errors, [], NoDuplicates, [], None, []));
    }
    var sizes, sizeGroups := Scanner.GroupBySize(files);
    KeysInGroupMap(files);
    var potentialGroups := Scanner.FilterPotentialDuplicates(sizes, sizeGroups);
    if |potentialGroups| == 0 {
      return Success(RunReport(files, errors, [], NoDuplicates, [], None, []));
    }
    var result, progress := Hasher.FindDuplicates(potentialGroups, digest);
    if o.json {
      progress := [];
    }
    if o.json || result.totalGroups == 0 || !o.yes {
      return Success(RunReport(files, errors, potentialGroups, result, progress, None, []));
    }
    ResultSetsNonEmpty(potentialGroups, digest);
    var deletion, unlinked := ExecuteDelete(result.groups, o.keep, answer, unlinkError);
    return Success(RunReport(files, errors, potentialGroups, result, progress, deletion, unlinked));
  }

  lemma KeysInGroupMap(files: seq<Scanner.FileRecord>)
    ensures forall s :: s in Keys(files, Scanner.SizeOf) ==> s in GroupMap(files, Scanner.SizeOf)
  {
  }

  /** On the potential groups `run` builds, every file of a result set has the set's size. */
  lemma RunSetsUniform(files: seq<Scanner.FileRecord>, digest: string -> Outcome<string>)
    ensures var r := Hasher.FindDuplicatesResult(Scanner.PotentialGroups(files), digest);
            forall s, f :: s in r.groups && f in s.files ==> f.file.size == s.size
  {
    var gs := Scanner.PotentialGroups(files);
    Scanner.PotentialGroupsSpec(files);
    forall g, a, b | g in gs && a in g && b in g ensures a.size == b.size {
      var i :| 0 <= i < |gs| && gs[i] == g;
      MemberOf(files, Scanner.SizeOf, g[0].size, a);
      MemberOf(files, Scanner.SizeOf, g[0].size, b);
    }
    Hasher.UniformSizes(gs, digest);
    Hasher.FindDuplicatesSpec(gs, digest);
    var r := Hasher.FindDuplicatesResult(gs, digest);
    forall s, f | s in r.groups && f in s.files ensures f.file.size == s.size {
      assert s in multiset(r.groups);
    }
  }

  /** Every set of the result holds one digest, so none is empty. */
  lemma ResultSetsNonEmpty(potentialGroups: seq<seq<Scanner.FileRecord>>, digest: string -> Outcome<string>)
    ensures var groups := Hasher.FindDuplicatesResult(potentialGroups, digest).groups;
            NonEmptySets(groups) && forall g :: g in groups ==> OneDigest(g)
  {
    Hasher.FindDuplicatesSpec(potentialGroups, digest);
  }

  /**
   * A deletion run unlinks exactly as many files as the result counts as duplicates, each
   * carrying the digest of a file its set keeps; the unlinks that succeed and those that fail
   * add up to that count.
   */
  lemma DeletionMatchesResult(potentialGroups: seq<seq<Scanner.FileRecord>>, digest: string -> Outcome<string>,
                              strategy: string, unlinkError: string -> Option<string>)
    ensures var result := Hasher.FindDuplicatesResult(potentialGroups, digest);
            var doomed := ToDelete(result.groups, strategy);
            var report := DeleteAll(doomed, unlinkError);
            && NonEmptySets(result.groups)
            && |doomed| == result.totalDuplicateFiles
            && report.deletedCount + |report.failedDeletes| == result.totalDuplicateFiles
            && forall f :: f in doomed ==> HasKeptTwin(f, result.groups, KeptFiles(result.groups, strategy))
  {
    var result := Hasher.FindDuplicatesResult(potentialGroups, digest);
    ResultSetsNonEmpty(potentialGroups, digest);
    ToDeleteCount(result.groups, strategy);
    DeleteAllSpec(ToDelete(result.groups, strategy), unlinkError);
    DeletedHaveKeptTwin(result.groups, strategy);
  }
}
