/**
 * Hash grouping and aggregation (lib/hasher.js).
 *
 * Hashing a file is an oracle `digest` from a path to the hex digest or to the message of the
 * error reading it threw; the choice of MD5 or SHA-256 is folded into the oracle. A progress
 * callback is modelled by the sequence of calls it receives.
 */
module Hasher {
  import opened Wrappers
  import opened Grouping
  import opened StableSort
  import Scanner

  // ---------------------------------------------------------------- data

  /** `{ ...file, hash }`, or `{ ...file, hash: null, error }` when hashing threw. */
  datatype HashedFile = HashedFile(file: Scanner.FileRecord, hash: Option<string>, error: Option<string>)

  /** One call `onProgress(done, total)`. */
  datatype Progress = Progress(done: nat, total: nat)

  /** One set of identical files: their digest, their size, the files and the space wasted. */
  datatype DuplicateSet = DuplicateSet(hash: string, size: int, files: seq<HashedFile>, wastedSpace: int)

  /** What `findDuplicates` resolves to. */
  datatype ScanResult = ScanResult(groups: seq<DuplicateSet>, totalGroups: nat, totalDuplicateFiles: int,
                                   totalWastedSpace: int)

  /** `file.hash` is truthy: neither `null` nor the empty string. */
  predicate Digested(h: HashedFile) { h.hash.Some? && h.hash.value != "" }

  /** The Map key of a hashed file. */
  function HashKey(h: HashedFile): string { if h.hash.Some? then h.hash.value else "" }

  function MtimeOf(h: HashedFile): int { h.file.mtime }

  function Extra(s: DuplicateSet): int { |s.files| - 1 }

  function Waste(s: DuplicateSet): int { s.wastedSpace }

  /** The sort key of `(a, b) => b.wastedSpace - a.wastedSpace`. */
  function NegWaste(s: DuplicateSet): int { -s.wastedSpace }

  // ---------------------------------------------------------------- calculateGroupHashes

  function HashOf(digest: string -> Outcome<string>, f: Scanner.FileRecord): HashedFile {
    match digest(f.path)
    case Ok(h) => HashedFile(f, Some(h), None)
    case Fail(msg) => HashedFile(f, None, Some(msg))
  }

  /** The results of hashing `files` in order: one per file, failures marked with their error. */
  function DigestAll(files: seq<Scanner.FileRecord>, digest: string -> Outcome<string>): (r: seq<HashedFile>)
    ensures |r| == |files|
    ensures forall i :: 0 <= i < |r| ==> r[i].file == files[i]
    ensures forall i :: 0 <= i < |r| ==> (r[i].hash.None? <==> digest(files[i].path).Fail?)
    ensures forall i :: 0 <= i < |r| ==> (r[i].error.Some? <==> digest(files[i].path).Fail?)
  {
    seq(|files|, i requires 0 <= i < |files| => HashOf(digest, files[i]))
  }

  /** The calls `(done, total)` a loop over `n` items reports after each, for a running total `before`. */
  function Ticks(before: nat, n: nat, total: nat): (t: seq<Progress>)
    ensures |t| == n
  {
    seq(n, j requires 0 <= j < n => Progress(before + j + 1, total))
  }

  /** `calculateGroupHashes(files, algorithm, onProgress)`: the results and the progress calls. */
  method CalculateGroupHashes(files: seq<Scanner.FileRecord>, digest: string -> Outcome<string>)
    returns (results: seq<HashedFile>, progress: seq<Progress>)
    ensures results == DigestAll(files, digest)
    ensures progress == Ticks(0, |files|, |files|)
  {
    results := [];
    progress := [];
    var processed := 0;
    for i := 0 to |files|
      invariant processed == i
      invariant results == DigestAll(files[..i], digest)
      invariant progress == Ticks(0, i, |files|)
    {
      var file := files[i];
      match digest(file.path) {
        case Ok(hash) =>
          results := results + [HashedFile(file, Some(hash), None)];
        case Fail(msg) =>
          results := results + [HashedFile(file, None, Some(msg))];
      }
      processed := processed + 1;
      progress := progress + [Progress(processed, |files|)];
    }
    assert files[..|files|] == files;
  }

  // ---------------------------------------------------------------- groupByHash

  /** The results that carry a digest. */
  function Hashed(results: seq<HashedFile>): seq<HashedFile> { Filter(results, Digested) }

  /** The keys of the Map `groupByHash` returns: the digests shared by two or more files. */
  function DuplicateHashes(results: seq<HashedFile>): seq<string> {
    var ok := Hashed(results);
    SharedKeys(Keys(ok, HashKey), GroupMap(ok, HashKey))
  }

  /** The Map `groupByHash` returns. */
  function DuplicateMap(results: seq<HashedFile>): map<string, seq<HashedFile>> {
    var ok := Hashed(results);
    Restrict(GroupMap(ok, HashKey), DuplicateHashes(results))
  }

  /** One step of the first loop of `groupByHash`. */
  lemma HashGroupStep(results: seq<HashedFile>, i: nat, keys: seq<string>, groups: map<string, seq<HashedFile>>)
    requires i < |results|
    requires keys == Keys(Hashed(results[..i]), HashKey) && groups == GroupMap(Hashed(results[..i]), HashKey)
    ensures var x := results[i];
            var k := HashKey(x);
            if !Digested(x) then
              keys == Keys(Hashed(results[..i + 1]), HashKey) && groups == GroupMap(Hashed(results[..i + 1]), HashKey)
            else
              && (if k in groups then keys else keys + [k]) == Keys(Hashed(results[..i + 1]), HashKey)
              && groups[k := (if k in groups then groups[k] else []) + [x]] == GroupMap(Hashed(results[..i + 1]), HashKey)
  {
    var ys := Hashed(results[..i]);
    FilterPrefix(results, i, Digested);
    if Digested(results[i]) {
      assert Hashed(results[..i + 1]) == ys + [results[i]];
      GroupAppend(ys, results[i], HashKey, keys, groups);
    } else {
      assert Hashed(results[..i + 1]) == ys;
    }
  }

  /** `groupByHash(filesWithHash)`: the keys, in insertion order, and contents of its Map. */
  method GroupByHash(results: seq<HashedFile>) returns (hashes: seq<string>, duplicates: map<string, seq<HashedFile>>)
    ensures hashes == DuplicateHashes(results)
    ensures duplicates == DuplicateMap(results)
  {
    var keys: seq<string> := [];
    var groups: map<string, seq<HashedFile>> := map[];
    for i := 0 to |results|
      invariant keys == Keys(Hashed(results[..i]), HashKey)
      invariant groups == GroupMap(Hashed(results[..i]), HashKey)
    {
      var file := results[i];
      HashGroupStep(results, i, keys, groups);
      if file.hash.Some? && file.hash.value != "" {
        var hash := file.hash.value;
        var group := [];
        if hash in groups {
          group := groups[hash];
        } else {
          keys := keys + [hash];
        }
        groups := groups[hash := group + [file]];
      }
    }
    assert results[..|results|] == results;
    hashes, duplicates := KeepDuplicates(keys, groups);
  }

  /**
   * The second loop of `groupByHash`: walking the Map's keys in insertion order, copy each list
   * of two or more files into a new Map.
   */
  method KeepDuplicates(keys: seq<string>, groups: map<string, seq<HashedFile>>)
    returns (hashes: seq<string>, duplicates: map<string, seq<HashedFile>>)
    requires forall k :: k in keys ==> k in groups
    ensures hashes == SharedKeys(keys, groups)
    ensures duplicates == Restrict(groups, hashes)
  {
    hashes := [];
    duplicates := map[];
    RestrictNone(groups);
    for i := 0 to |keys|
      invariant hashes == SharedKeys(keys[..i], groups)
      invariant duplicates == Restrict(groups, hashes)
    {
      var hash := keys[i];
      KeepStep(keys, i, groups);
      var files := groups[hash];
      if |files| > 1 {
        hashes := hashes + [hash];
        duplicates := duplicates[hash := files];
      }
    }
    WholePrefix(keys);
  }

  /** One step of the second loop of `groupByHash`. */
  lemma KeepStep(keys: seq<string>, i: nat, groups: map<string, seq<HashedFile>>)
    requires i < |keys| && forall k :: k in keys ==> k in groups
    ensures var h := keys[i];
            var hs := SharedKeys(keys[..i], groups);
            && SharedKeys(keys[..i + 1], groups) == (if |groups[h]| > 1 then hs + [h] else hs)
            && (|groups[h]| > 1 ==> Restrict(groups, hs + [h]) == Restrict(groups, hs)[h := groups[h]])
  {
    SharedKeysPrefix(keys, i, groups);
    if |groups[keys[i]]| > 1 {
      RestrictAppend(groups, SharedKeys(keys[..i], groups), keys[i]);
    }
  }

  /**
   * The Map `groupByHash` returns holds, under each digest shared by two or more files, every
   * file with that digest in input order, and nothing else; a file whose digest is shared is
   * under its digest; a file without a digest is nowhere.
   */
  lemma DuplicateMapSpec(results: seq<HashedFile>)
    ensures var hs := DuplicateHashes(results);
            var m := DuplicateMap(results);
            && Distinct(hs)
            && (forall h :: h in m <==> h in hs)
            && (forall h :: h in m ==> |m[h]| >= 2 && m[h] == Members(Hashed(results), HashKey, h))
            && (forall h, x :: h in m && x in m[h] ==> x in results && Digested(x) && x.hash == Some(h))
            && (forall x :: x in results && Digested(x) && |Members(Hashed(results), HashKey, HashKey(x))| >= 2
                  ==> HashKey(x) in hs)
  {
    var ok := Hashed(results);
    var g := GroupMap(ok, HashKey);
    var hs := DuplicateHashes(results);
    var m := DuplicateMap(results);
    assert m == Restrict(g, hs);
    SharedGroups(ok, HashKey);
    forall h | h in hs ensures h in m {
      assert h in Keys(ok, HashKey);
    }
    forall h, x | h in m && x in m[h] ensures x in results && Digested(x) && x.hash == Some(h) {
      MemberOf(ok, HashKey, h, x);
    }
  }

  // ---------------------------------------------------------------- findDuplicates

  /** The set built for the digest `hash` from its files, sorted by mtime ascending. */
  function MakeSet(hash: string, files: seq<HashedFile>): DuplicateSet
    requires |files| >= 1
  {
    var sorted := SortBy(files, MtimeOf);
    DuplicateSet(hash, sorted[0].file.size, sorted, sorted[0].file.size * (|sorted| - 1))
  }

  /** The sets built for the digests `hs` of the Map `m`, in order. */
  function SetsOf(hs: seq<string>, m: map<string, seq<HashedFile>>): seq<DuplicateSet>
    requires forall h :: h in hs ==> h in m && |m[h]| >= 1
  {
    if hs == [] then [] else SetsOf(hs[..|hs| - 1], m) + [MakeSet(hs[|hs| - 1], m[hs[|hs| - 1]])]
  }

  /** The `i`-th set is the one built for the `i`-th digest. */
  lemma {:induction false} SetsOfAt(hs: seq<string>, m: map<string, seq<HashedFile>>)
    requires forall h :: h in hs ==> h in m && |m[h]| >= 1
    ensures |SetsOf(hs, m)| == |hs|
    ensures forall i :: 0 <= i < |hs| ==> SetsOf(hs, m)[i] == MakeSet(hs[i], m[hs[i]])
  {
    if hs != [] {
      var init := hs[..|hs| - 1];
      var h := hs[|hs| - 1];
      SetsOfAt(init, m);
      var before := SetsOf(init, m);
      var last := MakeSet(h, m[h]);
      var r := SetsOf(hs, m);
      assert r == before + [last];
      forall i | 0 <= i < |hs| ensures r[i] == MakeSet(hs[i], m[hs[i]]) {
        if i < |init| {
          assert r[i] == before[i] && hs[i] == init[i];
        }
      }
    }
  }

  /** The sets one potential group contributes. */
  function GroupSets(group: seq<Scanner.FileRecord>, digest: string -> Outcome<string>): seq<DuplicateSet> {
    var results := DigestAll(group, digest);
    DuplicateMapSpec(results);
    SetsOf(DuplicateHashes(results), DuplicateMap(results))
  }

  /** The sets of all potential groups, before the final sort. */
  function AllSets(groups: seq<seq<Scanner.FileRecord>>, digest: string -> Outcome<string>): seq<DuplicateSet> {
    if groups == [] then []
    else AllSets(groups[..|groups| - 1], digest) + GroupSets(groups[|groups| - 1], digest)
  }

  /** The progress calls `findDuplicates` relays for `groups`, with `total` files in all. */
  function ProgressOf(groups: seq<seq<Scanner.FileRecord>>, total: nat): seq<Progress> {
    if groups == [] then []
    else
      var before := groups[..|groups| - 1];
      ProgressOf(before, total) + Ticks(TotalLength(before), |groups[|groups| - 1]|, total)
  }

  /** What `findDuplicates(potentialGroups, options)` resolves to. */
  function FindDuplicatesResult(groups: seq<seq<Scanner.FileRecord>>, digest: string -> Outcome<string>): ScanResult {
    var sets := SortBy(AllSets(groups, digest), NegWaste);
    ScanResult(sets, |sets|, SumOf(sets, Extra), SumOf(sets, Waste))
  }

  /** The callback `findDuplicates` hands to `calculateGroupHashes`: `(processedFiles + done, totalFiles)`. */
  function Relay(ticks: seq<Progress>, processedFiles: nat, totalFiles: nat): (r: seq<Progress>)
    ensures |r| == |ticks|
  {
    seq(|ticks|, j requires 0 <= j < |ticks| => Progress(processedFiles + ticks[j].done, totalFiles))
  }

  /** Relaying the calls of one group shifts them by the files processed before it. */
  lemma RelayTicks(n: nat, processedFiles: nat, totalFiles: nat)
    ensures Relay(Ticks(0, n, n), processedFiles, totalFiles) == Ticks(processedFiles, n, totalFiles)
  {
  }

  lemma GroupSetsStep(groups: seq<seq<Scanner.FileRecord>>, i: nat, digest: string -> Outcome<string>)
    requires i < |groups|
    ensures AllSets(groups[..i + 1], digest) == AllSets(groups[..i], digest) + GroupSets(groups[i], digest)
  {
    assert groups[..i + 1][..i] == groups[..i];
  }

  lemma ProgressStep(groups: seq<seq<Scanner.FileRecord>>, i: nat, total: nat)
    requires i < |groups|
    ensures ProgressOf(groups[..i + 1], total)
            == ProgressOf(groups[..i], total) + Ticks(TotalLength(groups[..i]), |groups[i]|, total)
  {
    assert groups[..i + 1][..i] == groups[..i];
  }

  lemma SetsOfPrefix(hs: seq<string>, k: nat, m: map<string, seq<HashedFile>>)
    requires k < |hs| && forall h :: h in hs ==> h in m && |m[h]| >= 1
    ensures SetsOf(hs[..k + 1], m) == SetsOf(hs[..k], m) + [MakeSet(hs[k], m[hs[k]])]
  {
    assert hs[..k + 1][..k] == hs[..k];
  }

  /** The first loop of `findDuplicates`: the number of files in all potential groups. */
  method CountFiles(potentialGroups: seq<seq<Scanner.FileRecord>>) returns (totalFiles: nat)
    ensures totalFiles == TotalLength(potentialGroups)
  {
    totalFiles := 0;
    for i := 0 to |potentialGroups|
      invariant totalFiles == TotalLength(potentialGroups[..i])
    {
      TotalLengthPrefix(potentialGroups, i);
      totalFiles := totalFiles + |potentialGroups[i]|;
    }
    assert potentialGroups[..|potentialGroups|] == potentialGroups;
  }

  lemma PushStep(base: seq<DuplicateSet>, hs: seq<string>, k: nat, m: map<string, seq<HashedFile>>)
    requires k < |hs| && forall h :: h in hs ==> h in m && |m[h]| >= 1
    ensures (base + SetsOf(hs[..k], m)) + [MakeSet(hs[k], m[hs[k]])] == base + SetsOf(hs[..k + 1], m)
  {
    SetsOfPrefix(hs, k, m);
    var s := SetsOf(hs[..k], m);
    var x := MakeSet(hs[k], m[hs[k]]);
    assert (base + s) + [x] == base + (s + [x]);
  }

  /**
   * The inner loop of `findDuplicates`: for each digest of the Map, in order, sort its files by
   * mtime and push the set built from them.
   */
  method PushSets(allDuplicates: seq<DuplicateSet>, hashes: seq<string>, duplicates: map<string, seq<HashedFile>>)
    returns (pushed: seq<DuplicateSet>)
    requires forall h :: h in hashes ==> h in duplicates && |duplicates[h]| >= 1
    ensures pushed == allDuplicates + SetsOf(hashes, duplicates)
  {
    pushed := allDuplicates;
    for k := 0 to |hashes|
      invariant pushed == allDuplicates + SetsOf(hashes[..k], duplicates)
    {
      PushStep(allDuplicates, hashes, k, duplicates);
      var dupSet := MakeSet(hashes[k], duplicates[hashes[k]]);
      pushed := pushed + [dupSet];
    }
    assert hashes[..|hashes|] == hashes;
  }

  /** `findDuplicates(potentialGroups, { onProgress })`: the result and the progress calls. */
  method FindDuplicates(potentialGroups: seq<seq<Scanner.FileRecord>>, digest: string -> Outcome<string>)
    returns (result: ScanResult, progress: seq<Progress>)
    ensures result == FindDuplicatesResult(potentialGroups, digest)
    ensures progress == ProgressOf(potentialGroups, TotalLength(potentialGroups))
  {
    var allDuplicates: seq<DuplicateSet> := [];
    var processedFiles := 0;
    progress := [];
    var totalFiles := CountFiles(potentialGroups);

    for i := 0 to |potentialGroups|
      invariant processedFiles == TotalLength(potentialGroups[..i])
      invariant allDuplicates == AllSets(potentialGroups[..i], digest)
      invariant progress == ProgressOf(potentialGroups[..i], totalFiles)
    {
      var group := potentialGroups[i];
      TotalLengthPrefix(potentialGroups, i);
      GroupSetsStep(potentialGroups, i, digest);
      ProgressStep(potentialGroups, i, totalFiles);
      var filesWithHash, ticks := CalculateGroupHashes(group, digest);
      RelayTicks(|group|, processedFiles, totalFiles);
      progress := progress + Relay(ticks, processedFiles, totalFiles);
      processedFiles := processedFiles + |group|;
      var hashes, duplicates := GroupByHash(filesWithHash);
      DuplicateMapSpec(filesWithHash);
      allDuplicates := PushSets(allDuplicates, hashes, duplicates);
    }
    assert potentialGroups[..|potentialGroups|] == potentialGroups;

    allDuplicates := SortBy(allDuplicates, NegWaste);
    result := ScanResult(allDuplicates, |allDuplicates|, SumOf(allDuplicates, Extra), SumOf(allDuplicates, Waste));
  }


  // ---------------------------------------------------------------- properties

  /**
   * A well-formed set: at least two files, all carrying the set's digest, sorted by mtime
   * ascending; its size is the first file's and the space wasted is that size per extra copy.
   */
  predicate SetValid(s: DuplicateSet) {
    && |s.files| >= 2
    && (forall f :: f in s.files ==> Digested(f) && f.hash == Some(s.hash))
    && SortedBy(s.files, MtimeOf)
    && s.size == s.files[0].file.size
    && s.wastedSpace == s.size * (|s.files| - 1)
  }

  /** The set built from two or more files of one digest is well formed and holds exactly them. */
  lemma MakeSetValid(hash: string, files: seq<HashedFile>)
    requires |files| >= 2 && forall f :: f in files ==> Digested(f) && f.hash == Some(hash)
    ensures SetValid(MakeSet(hash, files))
    ensures multiset(MakeSet(hash, files).files) == multiset(files)
  {
    var sorted := MakeSet(hash, files).files;
    SortBySorted(files, MtimeOf);
    forall f | f in sorted ensures Digested(f) && f.hash == Some(hash) {
      assert f in multiset(sorted);
    }
  }

  /** The files a set holds all come from `group`. */
  predicate FromGroup(s: DuplicateSet, group: seq<Scanner.FileRecord>) {
    forall f :: f in s.files ==> f.file in group
  }

  /**
   * The sets of one potential group are well formed, hold only files of that group, and each
   * holds every file of the group with its digest (in mtime order, ties in input order).
   */
  lemma GroupSetsSpec(group: seq<Scanner.FileRecord>, digest: string -> Outcome<string>)
    ensures var results := DigestAll(group, digest);
            forall s :: s in GroupSets(group, digest) ==>
              && SetValid(s) && FromGroup(s, group)
              && s.files == SortBy(Members(Hashed(results), HashKey, s.hash), MtimeOf)
  {
    var results := DigestAll(group, digest);
    var sets := GroupSets(group, digest);
    forall s | s in sets
      ensures SetValid(s) && FromGroup(s, group)
      ensures s.files == SortBy(Members(Hashed(results), HashKey, s.hash), MtimeOf)
    {
      var i :| 0 <= i < |sets| && sets[i] == s;
      SetAt(group, digest, i);
    }
  }

  /** The `i`-th set of one potential group is well formed and holds its digest's files, sorted. */
  lemma SetAt(group: seq<Scanner.FileRecord>, digest: string -> Outcome<string>, i: nat)
    requires i < |GroupSets(group, digest)|
    ensures var results := DigestAll(group, digest);
            var s := GroupSets(group, digest)[i];
            && SetValid(s) && FromGroup(s, group)
            && s.files == SortBy(Members(Hashed(results), HashKey, s.hash), MtimeOf)
  {
    var results := DigestAll(group, digest);
    var hs := DuplicateHashes(results);
    var m := DuplicateMap(results);
    DuplicateMapSpec(results);
    SetsOfAt(hs, m);
    var h := hs[i];
    assert h in m;
    var files := m[h];
    assert forall f :: f in files ==> f in results && Digested(f) && f.hash == Some(h);
    MakeSetValid(h, files);
    var s := GroupSets(group, digest)[i];
    assert s == MakeSet(h, files);
    forall f | f in s.files ensures f.file in group {
      assert f in multiset(files);
      DigestedFromGroup(group, digest, f);
    }
  }

  lemma DigestedFromGroup(group: seq<Scanner.FileRecord>, digest: string -> Outcome<string>, f: HashedFile)
    requires f in DigestAll(group, digest)
    ensures f.file in group
  {
    var results := DigestAll(group, digest);
    var j :| 0 <= j < |results| && results[j] == f;
  }

  /**
   * Every set `findDuplicates` produces is well formed and holds files of one potential group
   * only: sets never mix groups.
   */
  lemma {:induction false} AllSetsSpec(groups: seq<seq<Scanner.FileRecord>>, digest: string -> Outcome<string>)
    ensures forall s :: s in AllSets(groups, digest) ==>
              SetValid(s) && exists g :: g in groups && FromGroup(s, g)
  {
    if groups != [] {
      var init := groups[..|groups| - 1];
      var last := groups[|groups| - 1];
      AllSetsSpec(init, digest);
      GroupSetsSpec(last, digest);
      forall s | s in AllSets(groups, digest)
        ensures SetValid(s) && exists g :: g in groups && FromGroup(s, g)
      {
        if s in AllSets(init, digest) {
          var g :| g in init && FromGroup(s, g);
          assert g in groups;
        } else {
          assert FromGroup(s, last);
        }
      }
    }
  }

  /** When each potential group has one size, every file of a set has the set's size. */
  lemma UniformSizes(groups: seq<seq<Scanner.FileRecord>>, digest: string -> Outcome<string>)
    requires forall g, a, b :: g in groups && a in g && b in g ==> a.size == b.size
    ensures forall s, f :: s in AllSets(groups, digest) && f in s.files ==> f.file.size == s.size
  {
    AllSetsSpec(groups, digest);
    forall s, f | s in AllSets(groups, digest) && f in s.files ensures f.file.size == s.size {
      var g :| g in groups && FromGroup(s, g);
      assert s.files[0].file in g;
    }
  }

  /**
   * The result: the sets ordered by wasted space, largest first, ties in production order;
   * all well formed; the totals count the sets, the extra copies and the wasted space.
   */
  lemma FindDuplicatesSpec(groups: seq<seq<Scanner.FileRecord>>, digest: string -> Outcome<string>)
    ensures var r := FindDuplicatesResult(groups, digest);
            var all := AllSets(groups, digest);
            && multiset(r.groups) == multiset(all)
            && (forall i, j :: 0 <= i < j < |r.groups| ==> r.groups[i].wastedSpace >= r.groups[j].wastedSpace)
            && (forall w :: Members(r.groups, NegWaste, w) == Members(all, NegWaste, w))
            && (forall s :: s in r.groups ==> SetValid(s))
            && r.totalGroups == |r.groups|
            && r.totalDuplicateFiles == SumOf(all, Extra)
            && r.totalWastedSpace == SumOf(all, Waste)
  {
    var all := AllSets(groups, digest);
    var r := FindDuplicatesResult(groups, digest);
    AllSetsSpec(groups, digest);
    SortBySorted(all, NegWaste);
    forall w ensures Members(r.groups, NegWaste, w) == Members(all, NegWaste, w) {
      SortByStable(all, NegWaste, w);
    }
    forall s | s in r.groups ensures SetValid(s) {
      assert s in multiset(r.groups);
    }
    forall i, j | 0 <= i < j < |r.groups| ensures r.groups[i].wastedSpace >= r.groups[j].wastedSpace {
      assert NegWaste(r.groups[i]) <= NegWaste(r.groups[j]);
    }
    SortBySum(all, NegWaste, Extra);
    SortBySum(all, NegWaste, Waste);
  }

  /**
   * A file of a potential group whose digest `h` is carried by at least two of the group's
   * digested files lies in a set of that group for `h`.
   */
  lemma GroupSetsComplete(group: seq<Scanner.FileRecord>, digest: string -> Outcome<string>,
                          f: Scanner.FileRecord, h: string)
    requires f in group && digest(f.path) == Ok(h) && h != ""
    requires |Members(Hashed(DigestAll(group, digest)), HashKey, h)| >= 2
    ensures exists s :: s in GroupSets(group, digest) && s.hash == h && HashOf(digest, f) in s.files
  {
    var results := DigestAll(group, digest);
    var ok := Hashed(results);
    var x := HashOf(digest, f);
    var j :| 0 <= j < |group| && group[j] == f;
    assert results[j] == x;
    assert x in ok;
    var hs := DuplicateHashes(results);
    var m := DuplicateMap(results);
    DuplicateMapSpec(results);
    assert h in hs;
    assert x in m[h];
    SetsOfAt(hs, m);
    var k :| 0 <= k < |hs| && hs[k] == h;
    var s := GroupSets(group, digest)[k];
    assert s == MakeSet(h, m[h]);
    assert x in multiset(m[h]);
    assert x in s.files;
  }

  /** The sets of every potential group are among the sets produced. */
  lemma {:induction false} AllSetsInclude(groups: seq<seq<Scanner.FileRecord>>, digest: string -> Outcome<string>, i: nat)
    requires i < |groups|
    ensures forall s :: s in GroupSets(groups[i], digest) ==> s in AllSets(groups, digest)
  {
    var init := groups[..|groups| - 1];
    var before := AllSets(init, digest);
    var last := GroupSets(groups[|groups| - 1], digest);
    assert AllSets(groups, digest) == before + last;
    InConcat(before, last);
    if i < |init| {
      AllSetsInclude(init, digest, i);
      assert groups[i] == init[i];
      forall s | s in GroupSets(groups[i], digest) ensures s in AllSets(groups, digest) {
        assert s in before;
      }
    } else {
      assert i == |groups| - 1;
    }
  }

  /**
   * No duplicate is missed: a file whose digest `h` is shared by another digested file of its
   * potential group ends up, digested, in a result set for `h`.
   */
  lemma FindDuplicatesComplete(groups: seq<seq<Scanner.FileRecord>>, digest: string -> Outcome<string>,
                               i: nat, f: Scanner.FileRecord, h: string)
    requires i < |groups| && f in groups[i] && digest(f.path) == Ok(h) && h != ""
    requires |Members(Hashed(DigestAll(groups[i], digest)), HashKey, h)| >= 2
    ensures exists s :: s in FindDuplicatesResult(groups, digest).groups && s.hash == h && HashOf(digest, f) in s.files
  {
    GroupSetsComplete(groups[i], digest, f, h);
    var s :| s in GroupSets(groups[i], digest) && s.hash == h && HashOf(digest, f) in s.files;
    AllSetsInclude(groups, digest, i);
    var all := AllSets(groups, digest);
    assert s in multiset(all);
    assert s in multiset(FindDuplicatesResult(groups, digest).groups);
  }

  lemma TicksAppend(a: nat, b: nat, total: nat)
    ensures Ticks(0, a, total) + Ticks(a, b, total) == Ticks(0, a + b, total)
  {
  }

  /**
   * The progress calls over all groups count up one file at a time: the k-th call (from 0)
   * reports `k + 1` files done out of `total`.
   */
  lemma {:induction false} ProgressCountsUp(groups: seq<seq<Scanner.FileRecord>>, total: nat)
    ensures ProgressOf(groups, total) == Ticks(0, TotalLength(groups), total)
  {
    if groups != [] {
      var init := groups[..|groups| - 1];
      ProgressCountsUp(init, total);
      TicksAppend(TotalLength(init), |groups[|groups| - 1]|, total);
    }
  }

  /**
   * The calls `findDuplicates` relays never go down, all report the overall total, and the
   * last reports every file done.
   */
  lemma ProgressMonotone(groups: seq<seq<Scanner.FileRecord>>)
    ensures var total := TotalLength(groups);
            var p := ProgressOf(groups, total);
            && |p| == total
            && (forall i, j :: 0 <= i < j < |p| ==> p[i].done < p[j].done)
            && (forall i :: 0 <= i < |p| ==> p[i].total == total)
            && (p != [] ==> p[|p| - 1] == Progress(total, total))
  {
    ProgressCountsUp(groups, TotalLength(groups));
  }
}
