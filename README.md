# ghost-radar, modelled in Dafny

ghost-radar is a command-line duplicate-file finder. It walks a directory, groups the files by
size, digests the files in the groups that share a size, and reports the sets of files with the
same digest. It can then keep one file of each set, chosen by a retention strategy, and unlink
the others. This project models that pipeline and proves what each stage promises:

- `scanner.dfy` (module `Scanner`): `scanDirectory` over an abstract directory tree. A `Walker`
  class holds the `files` and `errors` arrays that the recursive `scan` appends to. Each entry has
  a name and a kind: a file whose stat succeeds or fails, a directory, a directory whose readdir
  fails, a symbolic link, or something else. The skip rules, filters and error records follow the
  source. `groupBySize` and `filterPotentialDuplicates` are loops over an insertion-ordered map,
  which is modelled as a key sequence plus a `map`.
- `hasher.dfy` (module `Hasher`): `calculateGroupHashes`, which calls a digest oracle per file;
  `groupByHash`; and `findDuplicates`, with its per-set mtime sort, wasted space, result order,
  totals and relayed progress calls.
- `ghost_radar.dfy` (module `GhostRadar`): the `--ext` and `--min-size` parsing of `run`, the
  pipeline `run` drives, and `executeDelete`. `executeDelete` sorts each set by the retention
  strategy, keeps the first file and unlinks the rest. An unlink oracle decides, per path,
  whether each unlink fails.
- `reporter.dfy` (module `Reporter`): `shortenPath` and `getAchievements`, with the two threshold
  tables.
- Support modules:
  - `js_text.dfy` (`JsText`): the JavaScript string operations used, which are `trim`,
    `toLowerCase`, `startsWith`, `split`, `join`, `slice` and `parseInt(_, 10)`;
  - `node_path.dfy` (`NodePath`): `path.join`, `basename` and `extname`;
  - `grouping.dfy` (`Grouping`): filters, groupings and insertion-ordered maps;
  - `stable_sort.dfy` (`StableSort`): the stable sort that `Array.prototype.sort` performs;
  - `wrappers.dfy`: `Option`, `Outcome` and `Result`.

File-system calls, the digest and the unlink are parameters: a `Target` tree, a function
`digest: path -> Outcome<string>` and a function `unlinkError: path -> Option<string>`. The
console answer to the confirmation prompt is a parameter `answer`. The home directory is a
parameter `home`. Modification times are integers.

## Model

| member | source | states |
|---|---|---|
| Scanner.ScanDirectory | lib/scanner.js:33-122 | returns exactly the log or the failure of the `Walk` specification for the target and options |
| Scanner.Walker.Scan | lib/scanner.js:38-98 | appends to `files` and `errors` exactly the records and errors the specification gives for that directory, after what they already held |
| Scanner.WalkFails | lib/scanner.js:101-103 | the scan fails exactly when the target is missing, is a file whose stat fails, or is neither a file nor a directory; a missing target gives the not-found error for its path; an unsupported target gives the unsupported-type error |
| Scanner.RootFileIgnoresOptions | lib/scanner.js:107-114 | a target that is a regular file yields exactly one record (its path, basename, size and mtime) and no errors, the same under any options |
| Scanner.SkippedEntriesIgnored | lib/scanner.js:52-64 | the scan of a directory equals the scan of its entries with hidden names, skipped directory names and symbolic links removed, so none of them is listed or entered |
| Scanner.WalkFilesAdmitted | lib/scanner.js:66-92 | every file a directory scan returns passes the minimum-size and extension filters; in non-recursive mode every file is a direct child of the root |
| Scanner.AdmittedFileListed | lib/scanner.js:71-92 | a considered file whose stat succeeds and which passes both filters is listed, with its joined path, name, size and mtime |
| Scanner.StatFailureRecorded | lib/scanner.js:93-95 | a file whose stat fails adds exactly one error for its path and message; the entries before and after it are scanned as if it were absent |
| Scanner.ReaddirFailureRecorded | lib/scanner.js:41-46 | in recursive mode, a subdirectory whose readdir fails adds exactly one error for its path; its siblings are still scanned |
| Scanner.FailureMessage | lib/scanner.js:101-118 | the messages for a missing and for an unsupported target end with the target path |
| Scanner.GroupBySize | lib/scanner.js:130-142 | returns the distinct sizes in first-seen order, and for each size the files of that size in input order |
| Grouping.GroupSizesSum | lib/scanner.js:130-142 | the lengths of the size groups add up to the number of files, so every file is in exactly one group |
| Scanner.FilterPotentialDuplicates | lib/scanner.js:149-159 | returns the groups of the sizes whose group has more than one file, in first-seen-size order, unchanged |
| Grouping.SharedGroups | lib/scanner.js:149-159 | the kept groups have distinct keys; each has more than one member and is every input element with that key; every element whose key is shared is in a kept group |
| Scanner.PotentialGroupsSpec | lib/scanner.js:130-159 | each potential group has at least two files, holds every file of its size in input order, and no two groups share a size |
| Scanner.PotentialGroupsCover | lib/scanner.js:130-159 | a file that shares its size with another file is in some potential group |
| Hasher.DigestAll | lib/hasher.js:45-51 | one result per input file, in input order; a result has no hash, and has an error, exactly when the digest of its path fails |
| Hasher.CalculateGroupHashes | lib/hasher.js:41-60 | returns the digests of all files in order, and reports progress once per file, counting from 1 up to the number of files |
| Hasher.GroupByHash | lib/hasher.js:67-88 | the first loop keeps, for the digested files seen so far, the Map's keys in first-seen order and each key's files in input order; the result is `DuplicateHashes`/`DuplicateMap`, whose meaning `DuplicateMapSpec` states |
| Hasher.KeepDuplicates | lib/hasher.js:79-85 | walking the keys in insertion order, the new Map holds exactly the keys whose list has more than one file, each with its full list, in that order |
| Hasher.DuplicateMapSpec | lib/hasher.js:71-85 | the hashes are distinct and are exactly the keys of the map; each group has at least two files, all digested with that hash; each group holds every digested file with that hash, in input order; a hash digested at least twice is kept |
| Hasher.MakeSetValid | lib/hasher.js:124-131 | a set built from at least two files with one digest is sorted by mtime, holds the same files, takes its size from the first file, and its wasted space is size times (count - 1) |
| Hasher.GroupSetsSpec | lib/hasher.js:111-133 | each set from one potential group is well formed, holds only files of that group, and is the group's files with that digest, stably sorted by mtime |
| Hasher.AllSetsSpec | lib/hasher.js:111-133 | every set produced is well formed and comes from a single potential group, so no set mixes groups |
| Hasher.GroupSetsComplete | lib/hasher.js:111-131 | a file of a potential group whose digest is shared by at least two digested files of the group lies, digested, in a set of that group for that digest |
| Hasher.FindDuplicatesComplete | lib/hasher.js:98-144 | no duplicate is missed: such a file lies in a result set for its digest |
| Hasher.UniformSizes | lib/hasher.js:111-133 | when each potential group has a single size, every file of a set has the set's size |
| Hasher.CountFiles | lib/hasher.js:105-108 | the total is the number of files across all potential groups |
| Hasher.PushSets | lib/hasher.js:122-132 | after the existing sets come one set per duplicate digest, in the Map's key order, each built from that digest's files |
| Hasher.FindDuplicates | lib/hasher.js:98-144 | returns the result of the specification, and the progress calls relayed over all groups against the total file count |
| Hasher.FindDuplicatesSpec | lib/hasher.js:136-143 | the result's sets are a permutation of those produced, ordered by wasted space descending, with ties in production order; every set is well formed; the totals are the set count, the sum of (count - 1) and the sum of wasted space |
| Hasher.RelayTicks | lib/hasher.js:112-116 | a group's progress calls, relayed, report the files processed before the group plus those done within it, against the overall total |
| Hasher.ProgressCountsUp | lib/hasher.js:105-118 | the relayed calls over all groups count up one file at a time, from 1 to the sum of the group lengths |
| Hasher.ProgressMonotone | lib/hasher.js:105-118 | there is one call per file; the done counts strictly increase; each call reports the total; the last call has done equal to total |
| StableSort.SortBySorted | lib/hasher.js:124 | the sort orders by its key |
| StableSort.SortByStable | lib/hasher.js:124 | for every key value, the elements with that key keep their input order, so the sort is stable |
| StableSort.SortByHead | bin/ghost-radar.js:164-175 | the first element has the least key, and every element before it in the input has a strictly greater key |
| StableSort.SortBySum | lib/hasher.js:136-143 | sorting leaves a sum over the elements unchanged |
| GhostRadar.NormalizeExtension | bin/ghost-radar.js:50-53 | the result is a normal extension that ends with the trimmed, lower-cased token and is at most one character longer; it is exactly that token when the token starts with `.`, and one character longer, so `.` added in front, exactly when it does not |
| GhostRadar.NormalizeExtensionIdempotent | bin/ghost-radar.js:50-53 | normalising a normalised token changes nothing |
| GhostRadar.ParseExtensions | bin/ghost-radar.js:48-54 | there is no filter exactly when the option is absent or empty; otherwise the list has one entry per comma-separated token, in order, each the normalisation of its token, and all are normal extensions |
| GhostRadar.ParseJoinedExtensions | bin/ghost-radar.js:50-53 | normalised, comma-free extensions joined by commas parse back to the same list |
| GhostRadar.MinSize | bin/ghost-radar.js:56 | the minimum size is never 0; text that `parseInt` reads as NaN or as 0 gives 1, and any other integer it reads (after white space and sign, up to the first non-digit) is kept as read |
| GhostRadar.MinSizeOfDecimal | bin/ghost-radar.js:56 | a decimal integer is kept as written, except 0, which becomes 1 |
| GhostRadar.Retention | bin/ghost-radar.js:161-175 | `sortedFiles` is a rearrangement of the set's files ordered by the strategy's key (`KeepKey`): mtime descending for `newest`, path length for `shortest`, mtime ascending for `oldest` and any other value |
| GhostRadar.KeptFile | bin/ghost-radar.js:162-178 | the kept file and the files to delete are a permutation of the set; newest keeps a latest mtime, shortest keeps a shortest path, and oldest or any other value keeps an earliest mtime; every file before the kept one is strictly worse, so ties go to the earliest file |
| GhostRadar.DeleteAllSpec | bin/ghost-radar.js:182-192 | the deleted count is the number of files whose unlink succeeded; the deleted size is the sum of their sizes; each failed file has one entry, in order, with its path and message; the two counts add up to the files tried |
| GhostRadar.ToDeleteCount | bin/ghost-radar.js:160-195 | the files tried number the sum of (count - 1) over the sets |
| GhostRadar.RetentionPartition | bin/ghost-radar.js:160-178 | the kept files and the files to delete are, together, a permutation of all files of the sets |
| GhostRadar.KeptNeverUnlinked | bin/ghost-radar.js:178-184 | when no file appears twice among the sets, no kept file is passed to unlink |
| GhostRadar.KeptPathNeverUnlinked | bin/ghost-radar.js:178-184 | when no two files of the sets share a path, the path of a kept file is never among the paths passed to unlink |
| GhostRadar.DeletedHaveKeptTwin | bin/ghost-radar.js:160-192 | when every set holds one digest, each file passed to unlink belongs to a set whose kept file, also of that set, carries the same digest |
| GhostRadar.ExecuteDelete | bin/ghost-radar.js:143-195 | an answer other than `yes` in any case deletes nothing; otherwise each file to delete is tried once, in order, and the counters are those of the best-effort deletion specification |
| GhostRadar.ResultSetsNonEmpty | lib/hasher.js:126-131 | every set of the result is non-empty and holds one digest |
| GhostRadar.DeletionMatchesResult | bin/ghost-radar.js:140-192 | a deletion tries exactly as many files as the result counts as duplicates; successes and failures add up to that count; each file tried belongs to a set that keeps a file of the same digest |
| GhostRadar.RunSetsUniform | bin/ghost-radar.js:79-102 | on the potential groups built from the scanned files, every file of every result set has the set's size |
| GhostRadar.NothingToHash | bin/ghost-radar.js:87-94 | with no potential group there is no duplicate set and no progress call |
| GhostRadar.Run | bin/ghost-radar.js:44-141 | a failed scan ends the run with its message; otherwise the run uses the scan's files and errors, the potential groups and the duplicate result; progress is reported only outside JSON mode; deletion happens exactly when `--yes` is set, the output is not JSON, there is a duplicate set and the answer is `yes` |
| Reporter.ShortenPath | lib/reporter.js:83-100 | a path that fits is returned unchanged, and with `maxLength` above 23 the result never exceeds `maxLength` |
| Reporter.ShortenPathFits | lib/reporter.js:84-94 | a path that fits is returned unchanged; when replacing a non-empty home prefix by `~` makes it fit, that is the result |
| Reporter.ShortenPathCuts | lib/reporter.js:97-99 | when `maxLength > 23`, a path still too long is cut to exactly `maxLength` characters: its first 20, `...`, and its last `maxLength - 23` |
| Reporter.ShortenPathAt23 | lib/reporter.js:97-99 | with `maxLength` 23 the tail is `slice(-0)`, the whole string, so the result is the first 20 characters, `...`, and the whole string |
| Reporter.GetAchievements | lib/reporter.js:62-78 | returns the count achievements reached by the group count, then the space achievements reached by the wasted space, each in table order |
| Reporter.AchievementsForSpec | lib/reporter.js:27-38 | an achievement is returned exactly when it is in the count table and reached by the count, or in the space table and reached by the space; there are at most eight |
| Reporter.AchievementsMonotone | lib/reporter.js:62-78 | larger values earn every achievement smaller ones earn, and each table's part of the smaller result is a prefix of the larger one's |
| Reporter.NoAchievements | lib/reporter.js:27-38 | a count below 1 and wasted space below 1 MiB earn nothing |
| Reporter.AllAchievements | lib/reporter.js:27-38 | a count of at least 100 and wasted space of at least 1 GiB earn all eight achievements, in table order |
| JsText.SplitThenJoin | bin/ghost-radar.js:50 | joining the pieces of a split with the separator gives back the string |
| JsText.JoinThenSplit | bin/ghost-radar.js:50 | splitting a join of separator-free pieces gives back the pieces |
| JsText.ParseIntDecimal | bin/ghost-radar.js:56 | `parseInt` reads a decimal integer back as its value |

## Left out

- File-system access (`readdirSync`, `statSync`, `existsSync`, `unlinkSync`) is not modelled. The directory tree and the unlink outcome are parameters. A tree is a fixed value, so changes to the tree during the scan are not modelled. A root whose stat fails is reported as a scan failure.
- `path.resolve` is not modelled; the target path is used as given. `path.join` is simplified to joining with one `/`. `path.extname` is modelled as the suffix from the last `.` of a name that does not start with `.`.
- `calculateFileHash` (MD5 or SHA-256 over a read stream) is not modelled; the digest is an oracle that may fail for a path. The `--secure` and `--hash` options only choose or display the digest, so they are left out as well.
- Async functions, promises, `readline` and `commander` are not modelled. The model is sequential. The prompt's answer is a parameter, and the options arrive already parsed.
- Console and ANSI output are not modelled: the print functions, `printJson`, `clearProgress` and the JSON printed in `run`. `Run` returns what would be printed instead.
- `formatSize` and `printProgress` are left out, because they use floating point. `randomQuote` is left out, because it uses `Math.random`.
- `HOME` and `USERPROFILE` are not read. The home directory is a parameter of `ShortenPath`.
- `Date` is not modelled; mtimes are integers.
- `toLowerCase` is modelled for ASCII letters only.
- String lengths count characters, not UTF-16 code units.
- `parseInt` is modelled without the loss of precision beyond 2^53.
- The in-place `Array.prototype.sort` calls are modelled by the pure stable sort `StableSort.SortBy`, applied to a copy. The update in place is not modelled.
- GhostRadar.ExecuteDelete: requires every set to be non-empty. The source would throw on the kept file of an empty set, but every set of the duplicate result has at least two files (`GhostRadar.ResultSetsNonEmpty`).
- GhostRadar.Run: the progress calls in JSON mode are not modelled, because JSON mode passes no progress callback; the model reports none.
- Hasher.CalculateGroupHashes: the progress callback is modelled as the sequence of calls it would receive, not as a call made during the loop.
- GhostRadar.KeptPathNeverUnlinked: takes as a premise that no two files of the sets share a path. A real directory listing never repeats a name, but the model's tree does not enforce unique entry names, so the premise is not derived from the scan.
