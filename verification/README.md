# duplicate_file_detector, modelled in Dafny

`dfd` finds files with identical content under the directories you name.
It keeps a fingerprint of every file in an SQLite cache:

- the absolute path;
- the size;
- the modification time to the second, plus the milliseconds past that second;
- the SHA-512 and MD5 digests of the content.

Fingerprints that have gone stale are purged on each run, and every file not yet cached is fingerprinted.
Then the cache is asked for the copies of each file, and the groups of copies go to an interactive handler.
The handler chooses which copies to keep, then deletes the rest or moves them to the trash.

This project models the core of `lib/dfd/` over an abstract filesystem.
That filesystem is a finite map from normalised absolute path to a node: a regular file, a directory, a symlink or anything else.
Each node has a size and a modification time in integer nanoseconds.
The modules follow the source files:

| module | file | models |
|---|---|---|
| `Wrappers` | wrappers.dfy | `Option`, Ruby exceptions as `Result`, `is_a?`-checked arguments, Ruby truthiness |
| `Text` | text.dfy | `String#strip`, `#split`, `#to_i`, `File.readlines`, decimal rendering |
| `Ordering` | ordering.dfy | byte-wise `String#<=>`, `Array#sort`, `#uniq`, `#index` |
| `Paths` | paths.dfy | `File.absolute_path`, `File.join`, `File.basename` |
| `FileSystem` | filesystem.dfy | `File.stat` (links in the last component followed, at most 40), `File.file?`, `directory?`, `symlink?` |
| `Timestamps` | timestamps.dfy | `Time#round` and `(subsec * 1000).round` on exact nanoseconds |
| `Fingerprints` | analyzed_file.dfy | `AnalyzedFile.new` |
| `Records` | cached_file.dfy | `DATABASE_COLUMNS`, a stored row, `CachedFile.new` |
| `Store` | cache.dfy | class `Cache`: `add`, `size`, `cached?`, `find_copies`, `valid?`, `purge!` |
| `Traversal` | directory.dfy | class `Directory`: `add`, `remove`, `tidy!`, `size`, `clone` |
| `Filtering` | file_filter.dfy | class `FileFilter`: `add`, `load`, `allows?`; `File.fnmatch` with `FNM_DOTMATCH` |
| `Pipeline` | detector.dfy | class `Detector`: `execute`, `locate_files`, `analyze` |
| `Trashing` | trasher.dfy | class `Trasher`: mode check, `trash`, `uncollide_filename` |
| `Handling` | handler.dfy | class `Handler`: `auto_keep`, `prompt`, the decision in `start`, `remove_copies` |

State that the source changes in place is modelled as classes whose methods are proved against specification functions:

- the cache's row table (`Store.Cache.rows`, a sequence of rows in rowid order);
- the directory's file list;
- the filter's glob list;
- the detector's directory and cache.

Loops in the source are `while` or `for` loops in the methods.
Examples are the `purge!` window loop, the loop that drops cached paths, the analysis loop, the prompt loop and the `remove_copies` loop.

A Ruby exception is an `Err` of the raised class.
For example, nil where a path is needed is `TypeError`, a missing row is `NoMethodError` and an endless `uncollide_filename` recursion is `StackError`.
SHA-512 and MD5 are opaque functions of the content.
`Time#to_s` and `Time.parse` are opaque functions in a `Clock`, and a valid cache requires that parsing a printed whole second gives it back.

Three facts of the code shape the model:

- **Rounding.** `AnalyzedFile` rounds the modification time to the nearest second (`mtime.round`, analyzed_file.rb line 13), and `valid?` compares against the same rounding.
- **No filter in the walk.** `Directory#add` takes no filter, so `FileFilter` is modelled on its own.
- **Depth.** With `-r` the walk has unlimited depth. Without it, the top directory's immediate entries are walked, because children get `true == 1`, which is false.

## Model

| member | source | states |
|---|---|---|
| Timestamps.RoundToSecond | lib/dfd/analyzed_file.rb:13 | the stored second is the whole second nearest the modification time, a half rounding up |
| Timestamps.Subsec | lib/dfd/analyzed_file.rb:14 | the sub-second part lies in [0, 1 s) and differs from the time by whole seconds |
| Timestamps.SubsecMillis | lib/dfd/analyzed_file.rb:14 | the stored milliseconds are the nearest millisecond to the sub-second part, between 0 and 1000 inclusive |
| Timestamps.RoundToSecondUnique | lib/dfd/cache.rb:177 | the nearest second is unique: any second whose half-open interval holds the time is the rounded one |
| Timestamps.SubsecMillisUnique | lib/dfd/cache.rb:178 | the nearest millisecond of the sub-second part is unique |
| Timestamps.NearestSecond | lib/dfd/cache.rb:177 | the time rounds to second `s` exactly when it lies in [s - 1/2 s, s + 1/2 s) |
| Timestamps.NearestMilli | lib/dfd/cache.rb:178 | the sub-second part rounds to `m` ms exactly when it lies in [m - 1/2 ms, m + 1/2 ms) |
| Timestamps.MillisReachThousand | lib/dfd/analyzed_file.rb:13-14 | a time 999.6 ms past its second stores 1000 ms while its second rounds up; 499.999999 ms stores 500 |
| FileSystem.Follow | lib/dfd/analyzed_file.rb:11 | following links never ends on a link |
| FileSystem.StatOfNonLink | lib/dfd/analyzed_file.rb:11 | stat of a node that is not a link is that node |
| FileSystem.Stat | lib/dfd/analyzed_file.rb:11 | defined by its body: the node reached by following at most 40 links; characterised by FileSystem.Follow and FileSystem.StatOfNonLink |
| FileSystem.IsFile | lib/dfd/directory.rb:12 | defined by its body: `Stat` finds a regular file |
| FileSystem.IsDirectory | lib/dfd/directory.rb:14 | defined by its body: `Stat` finds a directory |
| FileSystem.IsSymlink | lib/dfd/directory.rb:11 | defined by its body: the path itself is a link, as `lstat` sees it |
| Fingerprints.Analyze | lib/dfd/analyzed_file.rb:5-17 | nil is a TypeError; a path that does not lead to a regular file is an ArgumentError; an unreadable file fails; otherwise it succeeds, with the normalised absolute path of the input, which names a regular file |
| Fingerprints.AnalyzeFingerprint | lib/dfd/analyzed_file.rb:11-16 | the fingerprint holds the stat size, the nearest second, the nearest millisecond of the sub-second part (0 to 1000) and the digests of the content |
| Fingerprints.SameContentSameDigests | lib/dfd/analyzed_file.rb:15-16 | two files with equal content get equal digests wherever they are |
| Fingerprints.AnalyzeAbsolute | lib/dfd/analyzed_file.rb:10 | analysing a path or its absolute form gives the same result |
| Records.Encode | lib/dfd/cache.rb:10 | a selected row has one cell per column, each the row's value for the column named at that position |
| Records.ColumnIndex | lib/dfd/cached_file.rb:5-11 | each column name maps to a position holding that name |
| Records.ColumnIndexIsPosition | lib/dfd/cached_file.rb:5-11 | that position is `DATABASE_COLUMNS.index(name)`: rowid 0, path 1, size 2, updated_at 3, millis 4, sha512 5, md5 6 |
| Records.Field | lib/dfd/cached_file.rb:5-11 | defined by its body: the cell at the column's position, nil past the end; characterised by Records.DecodeEncode and Records.DecodeShortRow |
| Records.ToInteger | lib/dfd/cached_file.rb:5-9 | defined by its body: an integer is itself, a text is read by `String#to_i`, nil is 0; characterised by Text.ToIOfDigits and Text.NatToStringToI |
| Records.Decode | lib/dfd/cached_file.rb:4-12 | nil is a NoMethodError; an `updated_at` that is not a text is a TypeError; otherwise decoding succeeds exactly when the time parses |
| Records.DecodeEncode | lib/dfd/cached_file.rb:5-11 | a stored row decodes to its own rowid, path, size, millis and digests and to the parse of its time; a time that does not parse is an ArgumentError |
| Records.DecodeShortRow | lib/dfd/cached_file.rb:8 | a row too short to hold `updated_at` fails at `Time.parse(nil)` with a TypeError |
| Records.Load | lib/dfd/cache.rb:79 | decoding a stored row gives its field values |
| Store.FindRow | lib/dfd/cache.rb:73-79 | the position found holds the path, and there is none exactly when the path is not cached |
| Store.NextRowid | lib/dfd/cache.rb:54-67 | a new row's rowid exceeds every stored rowid: 1 in an empty table, otherwise one more than the largest |
| Store.UniquePathsCount | lib/dfd/cache.rb:151-153 | with unique paths, the number of cached paths is the number of rows |
| Store.SizeAfterInsert | lib/dfd/cache.rb:49-67 | inserting a path not yet cached keeps paths unique and adds exactly one cached path |
| Store.AppendUnique | lib/dfd/cache.rb:49-67 | after an append the paths are unique exactly when they were and the new path was not cached |
| Store.AppendCached | lib/dfd/cache.rb:49-67 | with no unique index, adding a cached path again gives a table whose paths are not unique: one more row, the same cached paths |
| Store.CachedAfterInsert | lib/dfd/cache.rb:156-163 | after a row for a normalised path is appended, `cached?` of that path holds from any working directory |
| Store.CopiesOf | lib/dfd/cache.rb:81-94 | at most one copy per row |
| Store.CopiesOfMembers | lib/dfd/cache.rb:81-94 | a path is among the copies exactly when some row holds it with the given size, SHA-512 and MD5 |
| Store.CopiesOfDistinct | lib/dfd/cache.rb:81-94 | with unique paths no copy is listed twice |
| Store.IsValid | lib/dfd/cache.rb:168-181 | anything but a CachedFile is an ArgumentError; a path that is not a text is a TypeError; otherwise the row is valid exactly when the file exists, has the stored size, its time lies within half a second of the stored second and its sub-second part within half a millisecond of the stored milliseconds |
| Store.FreshRowIsValid | lib/dfd/cache.rb:168-181 | a row just inserted for an analysed file is valid while the filesystem is unchanged |
| Store.Validity | lib/dfd/cache.rb:168-181 | defined by its body: the row decodes and `valid?` holds; characterised by Store.ValidityIff |
| Store.ValidityIff | lib/dfd/cache.rb:168-181 | a row survives exactly when its time parses, its file exists with the stored size, and the file's time lies in the half-open intervals around the stored second and milliseconds |
| Store.KeptMembers | lib/dfd/cache.rb:121-146 | a row remains after the sweep exactly when it was in the table and is valid |
| Store.Kept | lib/dfd/cache.rb:121-146 | defined by its body: the rows kept, in order, never more than the table; characterised by Store.KeptMembers, Store.KeptAllValid and Store.DeleteAsKept |
| Store.KeptAllValid | lib/dfd/cache.rb:121-146 | every remaining row is valid |
| Store.InvalidIdsMembers | lib/dfd/cache.rb:132-136 | the ids collected from a window are exactly the rowids of its invalid rows |
| Store.Delete | lib/dfd/cache.rb:139-144 | deleting by rowid leaves only table rows whose rowid is not listed |
| Store.DeleteAsKept | lib/dfd/cache.rb:139-144 | deleting exactly the rowids of the invalid rows keeps exactly the valid ones, in order |
| Store.KeptInvariant | lib/dfd/cache.rb:121-146 | removing rows keeps rowids ascending and times parseable, and keeps paths unique when they were |
| Store.WindowSparesEarlier | lib/dfd/cache.rb:122-144 | no row before a window is deleted by that window's pass |
| Store.WindowSparesSwept | lib/dfd/cache.rb:122-144 | rows swept by earlier windows are not deleted again when the clamped last window re-reads them |
| Store.WindowSweeps | lib/dfd/cache.rb:122-144 | an unswept row in the window is deleted exactly when it is invalid |
| Store.WindowStep | lib/dfd/cache.rb:122-144 | one window pass turns "swept from the window's end" into "swept from the window's start" |
| Store.SweepPass | lib/dfd/cache.rb:121-146 | a pass at offset max(0, n - k*500) over the partly swept table leaves it swept from that offset |
| Store.AtLeastZero | lib/dfd/cache.rb:122 | `[0, x].max` |
| Store.WindowCountUnique | lib/dfd/cache.rb:121 | ceil(n / 500) is the only number of passes after which the loop stops |
| Store.WindowAdvance | lib/dfd/cache.rb:121-122 | the next offset is at most 500 below the previous one and not below 0 |
| Store.WindowsCover | lib/dfd/cache.rb:121-131 | every original position lies inside some window |
| Store.WindowsOf1200 | lib/dfd/cache.rb:121-122 | a table of 1200 rows is read at offsets 700, 200 and 0 |
| Store.Cache.constructor | lib/dfd/cache.rb:17-38 | the cache opens with the rows earlier runs stored |
| Store.Cache.Add | lib/dfd/cache.rb:49-67 | a non-AnalyzedFile is an ArgumentError and changes nothing; otherwise exactly one row is appended with the next rowid and the printed time, even for a path already stored; paths stay unique exactly when that path was not cached; the table invariant is kept |
| Store.Cache.Size | lib/dfd/cache.rb:151-153 | the row count; with unique paths, the number of cached paths |
| Store.Cache.Cached | lib/dfd/cache.rb:156-163 | true exactly when some row holds the absolute form of the path |
| Store.Cache.FindCopies | lib/dfd/cache.rb:72-95 | a path with no row is a NoMethodError; otherwise the result is exactly the paths whose rows share the path's size and digests, in rowid order, with the path among them, and distinct when paths are unique |
| Store.Cache.Select | lib/dfd/cache.rb:81-94 | the second query returns the paths of the rows with the given signature |
| Store.Cache.Inspect | lib/dfd/cache.rb:126-136 | the purgeable list of a window is the rowids of its invalid rows, in order |
| Store.Cache.SweepWindow | lib/dfd/cache.rb:122-144 | one loop body: after it, the original rows from the new offset on are swept and the earlier ones are untouched |
| Store.Cache.Purge | lib/dfd/cache.rb:101-148 | `all` empties the table; otherwise exactly the valid rows remain in their order, after ceil(n/500) windows at offsets max(0, n - k*500); unique paths stay unique |
| Store.Cache.PurgeInvalid | lib/dfd/cache.rb:112-147 | the windowed loop: an empty table is left alone; the loop keeps exactly the valid rows, reads the windows in that order and keeps unique paths unique |
| Text.DigitValue | lib/dfd/handler.rb:99 | a digit's value is below ten |
| Text.LStrip | lib/dfd/handler.rb:96 | the result is a suffix, starts with no white space or NUL, and only those were dropped |
| Text.RStrip | lib/dfd/handler.rb:96 | the result is a prefix, ends with no white space or NUL, and only those were dropped |
| Text.Strip | lib/dfd/file_filter.rb:17-18 | the result neither starts nor ends with white space or NUL |
| Text.SplitOn | lib/dfd/directory.rb:10 | splitting gives at least one part, none holding the separator |
| Text.SplitOnAppend | lib/dfd/directory.rb:10 | splitting at a first separator gives the text before it, then the split of the rest |
| Text.Words | lib/dfd/handler.rb:96 | `split` gives non-empty words with no white space |
| Text.Lines | lib/dfd/file_filter.rb:16 | `readlines` gives non-empty lines, each with a newline at most at its end |
| Text.LinesConcat | lib/dfd/file_filter.rb:16 | the lines put together give back the text |
| Text.NatToString | lib/dfd/trasher.rb:54 | a number prints as a non-empty string of digits |
| Text.NatToStringValue | lib/dfd/trasher.rb:54 | the printed digits have the number's value |
| Text.NatToStringToI | lib/dfd/trasher.rb:53-54 | `to_i` of a printed number gives it back |
| Text.ToIOfDigits | lib/dfd/trasher.rb:53 | `to_i` of a string of digits is its decimal value |
| Text.ToI | lib/dfd/handler.rb:99 | defined by its body: white space, a sign, an optional `0d` and the longest numeral; characterised by Text.ToIOfDigits, Text.ToIWithoutNumeral, Text.ToISignAndSpace and Text.ToIUnderscore |
| Text.NumeralOfDigits | lib/dfd/handler.rb:99 | the numeral prefix of a string of digits is the whole string |
| Text.ToIOfNumeral | lib/dfd/handler.rb:99 | `"12".to_i` is 12 |
| Text.ToIWithoutNumeral | lib/dfd/handler.rb:99 | a token without a leading number reads as 0, so it is never understood |
| Text.ToISignAndSpace | lib/dfd/handler.rb:99 | leading white space and a sign are read, trailing junk ignored: `" -3k".to_i` is -3 |
| Text.ToIUnderscore | lib/dfd/handler.rb:99 | single underscores between digits are skipped: `"1_000".to_i` is 1000 |
| Ordering.LessIsStrictTotalOrder | lib/dfd/directory.rb:37 | byte-wise string comparison is a strict total order |
| Ordering.Sort | lib/dfd/directory.rb:37 | sorting gives a sorted permutation |
| Ordering.Uniq | lib/dfd/directory.rb:38 | `uniq` keeps every element once and adds none |
| Ordering.UniqOfDistinct | lib/dfd/detector.rb:124 | `uniq` of a list without repeats is the list itself |
| Ordering.UniqOfSorted | lib/dfd/directory.rb:37-38 | `uniq` after `sort` is strictly ascending |
| Ordering.StrictlySortedUnique | lib/dfd/directory.rb:35-41 | two strictly ascending lists with the same elements are equal |
| Ordering.DistinctCardinality | lib/dfd/handler.rb:37 | a list without repeats has as many elements as its set |
| Ordering.Position | lib/dfd/handler.rb:79 | `index` finds the first occurrence, or nil exactly when the element is absent |
| Ordering.PositionAt | lib/dfd/cached_file.rb:5 | `index` is the position before which the element does not occur |
| Paths.Segments | lib/dfd/directory.rb:10 | the segments of a path are plain names |
| Paths.Render | lib/dfd/directory.rb:10 | a rendered path starts with `/` |
| Paths.SegmentsOfRender | lib/dfd/directory.rb:10 | rendering plain segments and splitting again gives them back |
| Paths.AbsoluteIsNormal | lib/dfd/directory.rb:10 | `File.absolute_path` gives a normalised path starting with `/` |
| Paths.AbsolutePath | lib/dfd/directory.rb:10 | defined by its body: resolved against the working directory unless it starts with `/`; characterised by Paths.AbsoluteIsNormal, Paths.NormalIsAbsolute and Paths.AbsolutePathIdempotent |
| Paths.NormalIsAbsolute | lib/dfd/cache.rb:157 | a normalised path is its own absolute path |
| Paths.AbsolutePathIdempotent | lib/dfd/cache.rb:157 | taking the absolute path twice changes nothing, whatever the working directory |
| Paths.TrimTrailingSlashes | lib/dfd/trasher.rb:42 | the result is a prefix that does not end in `/`, and only slashes were dropped |
| Paths.JoinNormal | lib/dfd/directory.rb:20 | joining a normalised directory and a plain name gives a longer normalised path with one more segment |
| Paths.Join | lib/dfd/trasher.rb:42 | defined by its body: one `/` between the parts; characterised by Paths.JoinNormal and Paths.BasenameOfJoin |
| Paths.AfterLastSlash | lib/dfd/file_filter.rb:28 | the part after the last `/` is a suffix with no `/` |
| Paths.Basename | lib/dfd/file_filter.rb:28 | `basename` holds no `/` unless it is `/`, and is non-empty for a non-empty path |
| Paths.DirPart | lib/dfd/file_filter.rb:28 | the part up to the last `/` is a prefix ending in `/` |
| Paths.BasenameOfJoin | lib/dfd/trasher.rb:42 | the basename of a directory joined with a plain name is that name |
| Paths.Parent | lib/dfd/directory.rb:10 | the parent directory of a path is normalised |
| Traversal.Listing | lib/dfd/directory.rb:15-17 | `Dir.glob('*')` lists entries of the directory; without `include_all` no name starting with a dot, with it every entry |
| Traversal.DotsSkipped | lib/dfd/directory.rb:18 | a name made only of dots is skipped |
| Traversal.DotNamesSkipped | lib/dfd/directory.rb:18 | `.`, `..` and a name with a line of dots are skipped, because `^` and `$` are line anchors |
| Traversal.HiddenNameWalked | lib/dfd/directory.rb:18 | `.git` is not skipped |
| Traversal.NotDotsIsPlain | lib/dfd/directory.rb:18-20 | an entry that is not skipped is a plain name |
| Traversal.ChildFlag | lib/dfd/directory.rb:21 | children are walked recursively exactly when the flag is `true`, and the flag they get is `true` or `false` |
| Traversal.ScopeShrinks | lib/dfd/directory.rb:19-23 | a longer child path has fewer paths at or below its length, so the walk ends |
| Traversal.DirectoryNode | lib/dfd/directory.rb:14 | a directory that is not a link is stored as a directory |
| Traversal.EntryStep | lib/dfd/directory.rb:17-24 | walking one more entry appends that entry's walk |
| Traversal.WalkCollects | lib/dfd/directory.rb:9-29 | the walk collects only normalised regular files that are not links, at or below the root, hidden ones only with `include_all` |
| Traversal.Walk | lib/dfd/directory.rb:9-29 | defined by its body: the files `add` appends from a path; characterised by Traversal.WalkCollects, Traversal.ShallowWalk and Traversal.DeepWalk |
| Traversal.WalkEntriesCollect | lib/dfd/directory.rb:17-24 | the entries of a directory collect only such files strictly below it |
| Traversal.WalkEntries | lib/dfd/directory.rb:17-24 | defined by its body: the walks of the listed entries in order; characterised by Traversal.WalkEntriesCollect, Traversal.EntryStep and Traversal.ShallowEntries |
| Traversal.WalkEntryCollects | lib/dfd/directory.rb:18-23 | one entry collects only such files strictly below the directory |
| Traversal.WalkEntry | lib/dfd/directory.rb:18-23 | defined by its body: nothing for a dot name, else the walk of the joined path; characterised by Traversal.WalkEntryCollects, Traversal.ShallowEntry and Traversal.DotsSkipped |
| Traversal.FilesAmong | lib/dfd/directory.rb:12-13 | one level collects only regular files that are not links |
| Traversal.ShallowWalk | lib/dfd/directory.rb:14-23 | with a truthy flag other than `true` (the `1` of a run without `-r`), a directory yields exactly its listed regular files, and nothing when it cannot be listed |
| Traversal.ShallowEntries | lib/dfd/directory.rb:17-24 | with a `false` flag the entries yield exactly their regular files |
| Traversal.ShallowEntry | lib/dfd/directory.rb:18-23 | with a `false` flag an entry yields itself if it is a regular file that is not a link and is not skipped, else nothing |
| Traversal.DeepWalk | lib/dfd/directory.rb:19-23 | with `true` the walk of a listed subdirectory is part of the walk of its parent: unlimited depth |
| Traversal.ListedWalk | lib/dfd/directory.rb:14-24 | a listable directory with a truthy flag is walked entry by entry with the child flag |
| Traversal.EntryWithin | lib/dfd/directory.rb:17-24 | what an entry's walk collects is collected by the walk of the entries |
| Traversal.Removed | lib/dfd/directory.rb:31-33 | `delete` removes every occurrence and keeps every other element as often as before |
| Traversal.RemovedConcat | lib/dfd/directory.rb:31-33 | deleting from two parts is deleting from each |
| Traversal.RemovedAbsent | lib/dfd/directory.rb:31-33 | deleting an absent path changes nothing |
| Traversal.Tidied | lib/dfd/directory.rb:35-41 | after `compact!`, `sort!` and `uniq!`, the list is strictly ascending with the same elements |
| Traversal.TidiedUnique | lib/dfd/directory.rb:35-41 | any strictly ascending list with the same elements is the tidied list |
| Traversal.TidiedIdempotent | lib/dfd/directory.rb:35-41 | tidying twice is tidying once |
| Traversal.Directory.constructor | lib/dfd/directory.rb:5-7 | a new directory holds no file |
| Traversal.Directory.Add | lib/dfd/directory.rb:9-29 | `add` appends exactly the walk from the path: nothing for a link, the absolute path for a regular file, the entries' walks for a directory with a truthy flag |
| Traversal.Directory.AddEntries | lib/dfd/directory.rb:17-24 | the loop over a directory's entries appends the walks of the entries in order |
| Traversal.Directory.AddEntryAt | lib/dfd/directory.rb:17-24 | one iteration appends one entry's walk |
| Traversal.Directory.AddEntry | lib/dfd/directory.rb:18-23 | an entry is skipped if it is made of dots, otherwise added with the child flag |
| Traversal.Directory.Remove | lib/dfd/directory.rb:31-33 | the list becomes the list without the path |
| Traversal.Directory.Tidy | lib/dfd/directory.rb:35-41 | the list becomes its tidied form and the directory itself is returned |
| Traversal.Directory.Size | lib/dfd/directory.rb:43-45 | the number of entries |
| Traversal.Directory.Clone | lib/dfd/directory.rb:47-54 | a fresh directory with an equal list |
| Traversal.CloneIsIndependent | lib/dfd/directory.rb:47-54 | removing from the original after a clone leaves the clone's list as it was |
| Filtering.Bracket | lib/dfd/file_filter.rb:28 | a bracket expression consumes part of the pattern |
| Filtering.BracketItems | lib/dfd/file_filter.rb:28 | the items of a bracket consume part of the pattern, and a match found stays found |
| Filtering.BracketItem | lib/dfd/file_filter.rb:28 | one bracket item, a character or a range, consumes part of the pattern |
| Filtering.Match | lib/dfd/file_filter.rb:28 | defined by its body: `File.fnmatch` with `FNM_DOTMATCH`; characterised by Filtering.LiteralMatch, Filtering.StarMatchesAll, Filtering.QuestionMatchesOne, Filtering.StarSuffix and Filtering.MatchExamples |
| Filtering.LiteralMatch | lib/dfd/file_filter.rb:28 | a pattern without wildcards matches exactly itself |
| Filtering.StarMatchesAll | lib/dfd/file_filter.rb:28 | `*` matches every name, leading dots included |
| Filtering.QuestionMatchesOne | lib/dfd/file_filter.rb:28 | `?` matches exactly the one-character names |
| Filtering.StarSuffix | lib/dfd/file_filter.rb:28 | `*` followed by a literal matches exactly the names ending with that literal |
| Filtering.MatchExamples | lib/dfd/file_filter.rb:28 | `*` and `.*` match `.git`; `[a-c]` matches `b`, `[!a-c]` does not, and an unclosed bracket matches nothing |
| Filtering.IgnoreGlobs | lib/dfd/file_filter.rb:16-19 | the globs of a file are non-empty and none starts with `#` |
| Filtering.IgnoreGlobsMembers | lib/dfd/file_filter.rb:16-19 | a glob is taken exactly from the stripped lines that are neither blank nor comments |
| Filtering.StrippedLineHasNoNewline | lib/dfd/file_filter.rb:16-18 | a stripped line of a file holds no newline |
| Filtering.IgnoreGlobsStep | lib/dfd/file_filter.rb:16-19 | one more line appends its stripped form exactly when it holds a glob |
| Filtering.DirectoryGlob | lib/dfd/file_filter.rb:29-33 | `build/` excludes a directory named `build` and not a file of that name |
| Filtering.Excludes | lib/dfd/file_filter.rb:28-33 | defined by its body: the glob matches the basename, or ends in `/` and without it matches a directory's basename; characterised by Filtering.DirectoryGlob |
| Filtering.FileFilter.constructor | lib/dfd/file_filter.rb:6-8 | a new filter has no globs and is not loaded |
| Filtering.FileFilter.Add | lib/dfd/file_filter.rb:10-12 | a String is appended; anything else changes nothing |
| Filtering.FileFilter.Load | lib/dfd/file_filter.rb:14-23 | a readable regular file's globs are appended in file order; a missing or unreadable source adds none; `loaded` becomes true either way |
| Filtering.FileFilter.LoadLines | lib/dfd/file_filter.rb:16-19 | the line loop appends exactly the globs of the lines |
| Filtering.FileFilter.Allows | lib/dfd/file_filter.rb:25-37 | allowed exactly when no glob matches the basename and no glob ending in `/` matches the basename of a directory; so always with no globs |
| Pipeline.RootFlag | lib/dfd/detector.rb:147 | roots get a truthy flag, `true` exactly with `-r` |
| Pipeline.Walks | lib/dfd/detector.rb:144-151 | the roots collect only reachable regular files |
| Pipeline.WalksStep | lib/dfd/detector.rb:144-151 | one more root appends its walk |
| Pipeline.Located | lib/dfd/detector.rb:141-153 | the located list is tidied (strictly ascending, no repeats) and holds only regular files |
| Pipeline.Uncached | lib/dfd/detector.rb:105-112 | the files left to analyse are exactly the located files not cached after the purge |
| Pipeline.UncachedDistinct | lib/dfd/detector.rb:105-112 | with distinct located files, the files left are distinct |
| Pipeline.UncachedNormal | lib/dfd/detector.rb:105-112 | the files left are normalised and none has a row |
| Pipeline.PendingNone | lib/dfd/detector.rb:105 | before the loop the copy is the whole list |
| Pipeline.PendingStep | lib/dfd/detector.rb:110 | one iteration removes the path from the copy if it is cached, else changes nothing |
| Pipeline.DropStep | lib/dfd/detector.rb:109-112 | the same step at the loop's i-th path |
| Pipeline.PendingAll | lib/dfd/detector.rb:109-112 | once every path is checked, the copy holds exactly the uncached files in order |
| Pipeline.FirstErr | lib/dfd/detector.rb:135-138 | the first failing analysis: every earlier one succeeds, and the one there fails |
| Pipeline.InsertionsStep | lib/dfd/detector.rb:135-137 | analysing one more file appends its row with the next rowid |
| Pipeline.Insertions | lib/dfd/detector.rb:135-137 | one row per successful analysis, with consecutive rowids; characterised by Pipeline.InsertionsStep and Pipeline.InsertedPaths |
| Pipeline.CachedPathsAppend | lib/dfd/cache.rb:49-67 | appending a row adds exactly its path to the cached paths |
| Pipeline.LocatedCached | lib/dfd/detector.rb:104-113 | when every analysis succeeds, every located file is cached afterwards |
| Pipeline.InsertedPaths | lib/dfd/detector.rb:135-137 | the i-th inserted row holds the i-th analysed path |
| Pipeline.NextRowidOr | lib/dfd/cache.rb:54-67 | on a valid table, the next rowid |
| Pipeline.SortedPaths | lib/dfd/detector.rb:121 | `dups.sort` is a sorted permutation |
| Pipeline.GroupsStep | lib/dfd/detector.rb:119-123 | one more located path appends its sorted copies if there are more than one |
| Pipeline.Groups | lib/dfd/detector.rb:119-123 | defined by its body: the sorted copies of every path with more than one; characterised by Pipeline.GroupsSound, Pipeline.GroupsComplete and Pipeline.GroupShape |
| Pipeline.GroupsSound | lib/dfd/detector.rb:119-123 | every group is the sorted copies, more than one, of some located path |
| Pipeline.GroupsComplete | lib/dfd/detector.rb:119-123 | every located path with more than one copy has its sorted copies among the groups |
| Pipeline.GroupCollected | lib/dfd/detector.rb:119-123 | a path's group is collected by the time the loop passes the path |
| Pipeline.GroupShape | lib/dfd/detector.rb:120-121 | a group is strictly ascending, holds the queried path, and holds exactly the paths whose rows share its size and digests |
| Pipeline.DistinctPermutation | lib/dfd/detector.rb:121 | sorting keeps a list without repeats free of repeats |
| Pipeline.SortedDistinctIsStrict | lib/dfd/detector.rb:121 | a sorted list without repeats is strictly ascending |
| Pipeline.AddedRow | lib/dfd/detector.rb:136 | adding the i-th analysed file inserts its row, finds no earlier row with its path, and leaves the later files uncached |
| Pipeline.Detector.constructor | lib/dfd/detector.rb:94-98 | a new detector has an empty directory and the stored cache |
| Pipeline.Detector.Execute | lib/dfd/detector.rb:100-127 | no path gives the help text and changes nothing; otherwise the directory holds the located files, the cache holds the purged rows plus one row per uncached file up to the first failing analysis, a failure is returned as raised, and on success every located file is cached and the handler gets the groups without repeats; unique paths stay unique |
| Pipeline.Detector.Refresh | lib/dfd/detector.rb:105-113 | purge, drop cached paths, analyse the rest, with the same outcome as in `Execute`; unique paths stay unique |
| Pipeline.Detector.LocateFiles | lib/dfd/detector.rb:141-153 | the directory ends up holding the located list |
| Pipeline.Detector.AddRoot | lib/dfd/detector.rb:145-149 | one root's walk is appended |
| Pipeline.Detector.DropCached | lib/dfd/detector.rb:109-112 | the copy ends up holding exactly the uncached files |
| Pipeline.Detector.DropOne | lib/dfd/detector.rb:110 | one iteration of the dropping loop |
| Pipeline.Detector.AnalyzeAll | lib/dfd/detector.rb:131-139 | one row per file is appended until the first failing analysis, whose error is returned; an empty list changes nothing; no appended path was cached, so unique paths stay unique |
| Pipeline.Detector.AnalyzeAt | lib/dfd/detector.rb:135-137 | one iteration: the file's row is appended, or its analysis fails and the loop stops there |
| Pipeline.Detector.FindDuplicates | lib/dfd/detector.rb:115-123 | the collected groups are the groups of the located paths |
| Pipeline.Detector.AddGroup | lib/dfd/detector.rb:120-121 | one iteration appends a group exactly when the path has more than one copy |
| Trashing.ModeNamed | lib/dfd/trasher.rb:7-10 | only `remove` and `trash` name a mode |
| Trashing.Apply | lib/dfd/trasher.rb:41-48 | a move takes the path away and adds the target; a delete takes the path away |
| Trashing.RunEnd | lib/dfd/trasher.rb:53-54 | a greedy run ends at the first character the class refuses |
| Trashing.LastLineEnd | lib/dfd/trasher.rb:53-54 | the largest position in range where `$` matches |
| Trashing.ExtensionAt | lib/dfd/trasher.rb:53-54 | `(\.[^.]+)?$` from a position: a dot and at least one class character up to a line end, or `$` right there |
| Trashing.ParenEnd | lib/dfd/trasher.rb:53-54 | `\(\d+\)`: an opening parenthesis, at least one digit and a closing one |
| Trashing.NumberAt | lib/dfd/trasher.rb:53 | the number captured at a position is a non-empty string of digits |
| Trashing.FirstNumber | lib/dfd/trasher.rb:53 | the number of the leftmost match is a non-empty string of digits |
| Trashing.NextNumber | lib/dfd/trasher.rb:53 | the next number is at least 1; Trashing.NoNumber and Trashing.NumberAfterParen give its value |
| Trashing.AfterSpaces | lib/dfd/trasher.rb:54 | the rest of the `sub` pattern ends at a line end, with the capture inside the match, and with no `/` under the corrected class |
| Trashing.SpacesThen | lib/dfd/trasher.rb:54 | backtracking `\s*` keeps those properties |
| Trashing.SubAt | lib/dfd/trasher.rb:54 | a match at a position ends at a line end and holds no `/` under the corrected class |
| Trashing.FirstSub | lib/dfd/trasher.rb:54 | there is always a leftmost match, and it is the match at its position |
| Trashing.Rename | lib/dfd/trasher.rb:54 | defined by its body: the leftmost match gives way to ` (n)` and its capture; characterised by Trashing.FirstRename, Trashing.RenameFirst and Trashing.RenameNext |
| Trashing.Candidate | lib/dfd/trasher.rb:53-54 | defined by its body: `Rename` with the number `NextNumber` reads; characterised by Trashing.RenameFirst, Trashing.RenameNext and Trashing.CandidateKeepsDirectory |
| Trashing.Uncollide | lib/dfd/trasher.rb:50-57 | a free path is returned unchanged; any path returned is free; a repeated candidate ends in a SystemStackError |
| Trashing.Trasher.constructor | lib/dfd/trasher.rb:9-15 | a trasher has a trash directory exactly in trash mode |
| Trashing.Trasher.Trash | lib/dfd/trasher.rb:16-44 | remove mode deletes the path; trash mode moves it to the first free name for its basename in the trash, found with the pattern as written, or fails as that name search does |
| Trashing.NewTrasher | lib/dfd/trasher.rb:9-15 | an unknown mode is an ArgumentError; trash mode without a trash can is a ScriptError; otherwise a trasher in that mode |
| Trashing.UncollideFirstFree | lib/dfd/trasher.rb:50-57 | a taken name without a number whose first candidate is free is moved as `pre (1)ext`, for every stem and extension |
| Trashing.DotsClosedCases | lib/dfd/trasher.rb:53-54 | a name without extension, as written, is one with no dot anywhere; with the corrected class, one whose dots are all followed by a `/` |
| Trashing.RenameFirst | lib/dfd/trasher.rb:53-54 | a name without a number or `(`, with an extension or none, becomes `pre (1)ext`: `foo.txt` gives `foo (1).txt`; without an extension the stem must hold no dot the class would take for one (as written: no dot at all) |
| Trashing.NumberAfterParen | lib/dfd/trasher.rb:53 | a name ending in `(k)` and an extension gets number k+1 |
| Trashing.RenameNext | lib/dfd/trasher.rb:53-54 | a numbered name goes up by one: `pre (k)ext` becomes `pre (k+1)ext` |
| Trashing.TrashLeavesCan | lib/dfd/trasher.rb:41-57 | as written, a collision of `x` in the trash can `/.T` ends in `/ (1).T/x`, outside the can; with the corrected class it ends in `/.T/x (1)` |
| Trashing.SplicedIntoDirectory | lib/dfd/trasher.rb:53-54 | as written, the candidate for `/.T/x` is `/ (1).T/x`: the number lands in the directory part |
| Trashing.SplicedMatch | lib/dfd/trasher.rb:54 | as written, the leftmost match in `/.T/x` starts at the dot of the directory and captures `.T/x` |
| Trashing.FirstRename | lib/dfd/trasher.rb:54 | without a number, the match gives way to ` (1)` followed by its capture |
| Trashing.CandidateStaysInDirectory | lib/dfd/trasher.rb:53-54 | with the corrected class the candidate for `/.T/x` is `/.T/x (1)` |
| Trashing.StaysMatch | lib/dfd/trasher.rb:54 | with the corrected class the only match in `/.T/x` is the empty one at its end |
| Trashing.NoNumber | lib/dfd/trasher.rb:53 | a path without `(` gets number 1 |
| Trashing.NoSlashFreeMatch | lib/dfd/trasher.rb:54 | with the corrected class no match starts before a later `/` |
| Trashing.FirstSubAt | lib/dfd/trasher.rb:54 | the leftmost match is the first position where the pattern matches |
| Trashing.CandidateKeepsDirectory | lib/dfd/trasher.rb:53-54 | with the corrected class, the next name keeps everything before the match, and neither the rest of the old name nor what replaces it holds a `/` |
| Trashing.NumberTag | lib/dfd/trasher.rb:54 | ` (n)` holds no `/` |
| Trashing.MatchAfterDirectory | lib/dfd/trasher.rb:54 | with the corrected class, on a one-line path, the leftmost match runs to the end without a `/`, and so does its capture |
| Trashing.OnlyEndIsLineEnd | lib/dfd/trasher.rb:53-54 | in a path without newline `$` matches only at the end |
| Handling.AutoKeep | lib/dfd/handler.rb:76-89 | nil exactly in ask mode; otherwise one index: of the first occurrence of the oldest or newest file, 0 for `first`, count-1 for `last` |
| Handling.AutoKeepKeepsOne | lib/dfd/handler.rb:35-38 | an automatic choice on a non-empty set is in range and removes all but one file |
| Handling.Rejected | lib/dfd/handler.rb:99 | a token is rejected exactly when its `to_i` is outside 1..count |
| Handling.Indices | lib/dfd/handler.rb:102 | each token becomes its `to_i` minus one |
| Handling.AllIndices | lib/dfd/handler.rb:103 | an empty answer keeps 0 to count-1 |
| Handling.KeepersSorted | lib/dfd/handler.rb:102-103 | the keepers are strictly ascending |
| Handling.KeepersMembers | lib/dfd/handler.rb:102-103 | a non-empty answer keeps exactly the indices of its tokens; an empty one keeps every index |
| Handling.SortedMembers | lib/dfd/handler.rb:102 | `sort.uniq` keeps exactly the elements |
| Handling.KeepersInRange | lib/dfd/handler.rb:99-103 | an answer with nothing rejected keeps only valid indices, and at least one when the set is non-empty |
| Handling.IndicesInRange | lib/dfd/handler.rb:99-102 | understood tokens give valid indices |
| Handling.FirstTrue | lib/dfd/handler.rb:94 | the first true entry, or none |
| Handling.ParseAnswer | lib/dfd/handler.rb:96-103 | defined by its body: the rejected tokens and the keepers of one line; characterised by Handling.Rejected, Handling.KeepersMembers, Handling.KeepersSorted and Handling.KeepersInRange |
| Handling.FirstUnderstood | lib/dfd/handler.rb:94-104 | the first input line with no rejected token, or none |
| Handling.ChosenKeep | lib/dfd/handler.rb:35 | `auto_keep or prompt`: a choice on a non-empty set keeps valid indices and at least one; only the prompt can fail, at end of input |
| Handling.Prompt | lib/dfd/handler.rb:91-106 | the loop reads lines until one has no rejected token and returns its keepers, strictly ascending and in range; running out of input is a NoMethodError |
| Handling.Doomed | lib/dfd/handler.rb:53-54 | the removed indices are exactly those below count not in the keep list, ascending |
| Handling.DoomedCount | lib/dfd/handler.rb:37 | removed and kept indices together make up the set |
| Handling.UniqCount | lib/dfd/handler.rb:37 | an in-range keep list keeps as many indices as it has distinct entries |
| Handling.KeepAllIffNoneDoomed | lib/dfd/handler.rb:37-41 | `keep.uniq.size == set.count` exactly when nothing would be removed |
| Handling.SomeCopySurvives | lib/dfd/handler.rb:52-54 | a non-empty in-range keep list leaves at least one copy |
| Handling.DoomedFiles | lib/dfd/handler.rb:53-54 | one file per removed index |
| Handling.DoomedFilesAt | lib/dfd/handler.rb:53-54 | the k-th removed file is the file at the k-th removed index |
| Handling.NoOverwriteAppend | lib/dfd/trasher.rb:41-44 | a move to a free name keeps the actions from overwriting any file |
| Handling.Handler.constructor | lib/dfd/handler.rb:11-25 | the handler's trasher is in the mode its options ask for |
| Handling.Handler.RemoveCopies | lib/dfd/handler.rb:51-59 | an empty keep list is a ScriptError; otherwise exactly the files at the removed indices are trashed, in index order, none in a dry run, each by the trasher's mode, never over an existing file |
| Handling.Handler.RemoveAt | lib/dfd/handler.rb:53-57 | one iteration: a kept index does nothing, a removed one trashes its file unless dry-running |
| Handling.Handler.HandleSet | lib/dfd/handler.rb:35-41 | the chosen keep list decides: the files removed are exactly those not kept, fewer than the set; all kept means none removed |
| Handling.NewHandler | lib/dfd/handler.rb:24 | the trasher is built in `trash` or `remove` mode; trash mode without a trash can is a ScriptError |

## Left out

- The SQLite connection, its timeout, schema creation, `commit` and `close` are left out. The table is the in-memory sequence `Cache.rows`. The constructor's `execute` sends the table and the three indexes as one text, and `Database#execute` runs only the first statement of a text, so the indexes are never created. The model therefore has no unique index: `Cache.Add` appends even for a cached path, and `UniquePaths` is a property the detector keeps because it only adds uncached paths. Cross-process locking is concurrency, outside the model.
- Progress bars, messages on `$STDOUT` and `GC.start` are output and runtime housekeeping.
- Option parsing, help, version and `exit` are left out. `Execute` takes the parsed options, and "no paths" returns `Help`.
- SHA-512 and MD5 are opaque functions of the content. `Time#to_s` and `Time.parse` are opaque functions whose round trip on whole seconds is assumed in the cache invariant.
- The operating-system trash lookup is a parameter (`trashCan`) of `NewTrasher`. `FileUtils.move` and `File.delete` are `Action` values, and `Apply` gives their effect on the set of existing paths when they succeed.
- Trashing.Apply: every move is assumed to succeed. `FileUtils.move` is called with `force: true` (trasher.rb line 43), which swallows a failing rename, for example one into a target directory that does not exist; the file then stays where it was, while `Apply` (and the count of removed files in `Handling.Handler.HandleSet`) treats it as moved.
- FileSystem.Follow: symbolic links are followed only when they are the last component of a path. A path that passes through a linked directory is looked up as written, so `File.stat` through such a directory is not modelled.
- Terminal rendering, colours, the terminal width, `print(set)` and the `STDIN` read are left out. The prompt takes its input lines as a parameter.
- `Handler#start`'s loop over all sets is not modelled as one member. `Handling.Handler.HandleSet` models one iteration.
- `detector.rb` line 126 passes arrays to `Handler.new` with no options, and `handler.rb` line 22 would then fail on nil. `Pipeline.Detector.Execute` therefore ends with the groups handed over (`Handed`), and the handler is modelled standalone.
- `DuplicateFileSet` has no `oldest` or `newest`. `Handling.DuplicateSet` carries them as fields.
- Handling.AutoKeep: requires the oldest or newest file to be in the set. With another value Ruby would keep index nil, which is not modelled.
- Filtering.Match: models `File.fnmatch` with `FNM_DOTMATCH` and without `FNM_PATHNAME`. It covers `*`, `?`, brackets with ranges and `!`/`^` negation, and backslash escapes. `{a,b}` braces are not part of `fnmatch` without `FNM_EXTGLOB`, and case folding is not modelled.
- Filtering.FileFilter.Load: `File.file?` and `File.readable?` are read from the filesystem model. A file that vanishes between the check and the read is not modelled.
- `File.absolute_path` does not expand `~`, and the model does not either. Paths are sequences of characters; byte encodings are not modelled.
- The walk sees `Dir.glob`'s listing in the order stored in the filesystem model. An `Errno::EPERM` from listing a directory is a directory that cannot be listed, so it contributes nothing. `Dir.glob` raises before any entry is visited, so nothing of it was appended.
- Pipeline.Detector.Execute: a failing `find_duplicates` cannot happen once every located file is cached, so that error path is not modelled.
- Trashing.Uncollide: a candidate that repeats an earlier one is reported as a SystemStackError straight away. In Ruby the recursion would run until the stack overflows.
- `File.exists?` (trasher.rb line 51, cache.rb line 173) was removed in Ruby 3.2. The model assumes an earlier Ruby, where it is `File.exist?`; on 3.2 and later both calls would raise NoMethodError.

## Findings

| source | as written | input that shows it | evidently intended | confidence | as-written member | corrected member |
|---|---|---|---|---|---|---|
| lib/dfd/trasher.rb:53-54 | the extension is `\.[^.]+` up to the end of the whole path, and `[^.]` also matches `/` | a file without extension moved into a trash directory whose name has a dot: `/.T/x` becomes `/ (1).T/x`, naming a file in another directory; unless `/ (1).T` exists, the forced move fails silently and the file is not trashed | the extension is taken from the last name only (`[^./]`), so the new name stays in the trash directory: `/.T/x (1)` | not executed; high that the behaviour follows from the regular expression | Trashing.SplicedIntoDirectory | Trashing.CandidateKeepsDirectory |

`Trashing.Candidate` and `Trashing.Uncollide` take the class as a parameter: `NotDot` is `[^.]` as written, `NotDotOrSlash` is the corrected `[^./]`.
`Trashing.Trasher.Trash` uses the class as written, so it moves the file as the source does; `Trashing.TrashLeavesCan` shows both outcomes for the same collision.
`Trashing.CandidateKeepsDirectory` proves for every one-line path that the corrected class keeps the new name in the directory of the old one.
