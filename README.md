# osutil utilities in Dafny

A model of the sequential utilities of the Go library `github.com/zimmski/osutil`, with proofs about them:

- **Byte and line helpers** (`bytesutil`):
  - splitting at a separator;
  - the lengths of the lines of a byte slice;
  - prefixing lines;
  - removing the indentation of an indented multi-line literal;
  - prefixing continuation lines;
  - the word after a match;
  - guarded blocks of lines;
  - sorting lines.
- **Path helpers**:
  - the greatest common directory of paths;
  - filtering the PATH list;
  - the hierarchy order of file paths;
  - the entry-name check and the extension dispatch of the archive extractor;
  - the permission of the nearest existing parent directory.
- **Lookup structures**:
  - environment lookups;
  - the typed filter of an untyped slice;
  - a synchronised map;
  - merging template function maps.
- **Operating-system helpers**:
  - the memory-usage parser and the watchdog decisions of the process-tree limits;
  - the scans of `/etc/os-release` (Linux) and of the `sw_vers` output (macOS).

The model has one module per Go file:

| Module | Models |
|---|---|
| `Splitter` | `bytesutil/splitter.go` |
| `Lines` | `bytesutil/lines.go` |
| `Text` | `bytesutil/text.go` |
| `Sort` | `bytesutil/sort.go` |
| `PathOperator` | `path_operator.go` |
| `Files` | `files.go` |
| `Archive` | `archive.go` |
| `Env` | `env.go` |
| `Conversion` | `conversion.go` |
| `Sync` | `sync.go` |
| `Templates` | `templateutil/defaults.go` |
| `Permission` | `permission.go` |
| `Limits` | `limits_linux.go` |
| `InfoLinux` | `info_linux.go` |
| `InfoDarwin` | `info_darwin.go` |

Three modules hold shared definitions:
- `Wrappers` holds `Option` and `Result`.
- `Bytes` holds the byte type and the bytes '\n', '\r' and '\t'.
- `Strings` holds the parts of Go's `strings` package the sources use, on ASCII text.

Where the source works by loops and updates, the model has a method with that loop and its invariants. The method is proved equal to a specification function, and the lemmas state what that function means. Examples: `Splitter.Split` against `Segments`, `Lines.LineLengths` against `Lengths`, `Text.GuardedBlocks` against `Blocks`. `FilePathsByHierarchy` and `SyncedMap`, whose methods update state, are classes.

Calls to the outside world are parameters:
- The environment is a map.
- The output of `ps`, `uname -r`, `sw_vers` and the release files are `Option<string>` values, with None for a failed call.
- `os.Stat` is a map from the existing paths to their modes.
- `filepath.Abs`, `strconv.Atoi`, `strconv.Unquote` and Go's type assertion are partial functions.

A Go panic is an error value of the model.

The code and its documentation or tests disagree in a few places. The model follows the code:
- The test "No final Newline" (`bytesutil/text_test.go:421-430`) expects a guarded block without a final '\n'. The code appends '\n' after every line of a block (`bytesutil/text.go:309-321`).
- The documentation of `IsEnvEnabled` (`env.go:40`) says capitalisation is ignored, but additional values are compared as given (see Findings).
- The comment of `FilePathsByHierarchy` says it sorts by hierarchy. Its `Less` is not a strict order (see Findings).

## Model

| member | source | states |
|---|---|---|
| Splitter.IndexOf | bytesutil/splitter.go:13-16 | The end of the first segment: the first occurrence of the separator with none before it, or the length when there is none. |
| Splitter.Split | bytesutil/splitter.go:8-31 | The loop that reslices the input yields exactly the segments of `Segments`, in input order. It stops after the segment that reaches the end of the input. |
| Splitter.JoinSegments | bytesutil/splitter.go:12-26 | Joining the segments with the separator between them reproduces the input exactly. |
| Splitter.SegmentsOfJoin | bytesutil/splitter.go:12-26 | Conversely, splitting the join of a non-empty list of separator-free pieces gives that list back. So the segments are the only such decomposition of the input. |
| Splitter.SegmentsSeparatorFree | bytesutil/splitter.go:13-18 | No segment contains the separator. |
| Splitter.SegmentsCount | bytesutil/splitter.go:13-24 | There is exactly one more segment than there are separators in the input. |
| Splitter.SegmentsAppend | bytesutil/splitter.go:13-24 | The segments of `s + [sep] + t` are the segments of `s` followed by those of `t`. |
| Splitter.JoinCount | bytesutil/splitter.go:12-26 | Joining k separator-free pieces puts exactly k - 1 separators into the result. |
| Splitter.SegmentsOfEmpty | bytesutil/splitter_test.go:49-54 | The empty input yields exactly one empty segment. |
| Splitter.SegmentsLeadingSeparator | bytesutil/splitter_test.go:33-39 | A leading separator yields an empty first segment. |
| Splitter.SegmentsTrailingSeparator | bytesutil/splitter_test.go:41-47 | A trailing separator yields an empty last segment. |
| Lines.Lengths | bytesutil/lines.go:23-37 | The entries after the leading 0: at least one entry, one per line (see the next rows). |
| Lines.LengthsOfLines | bytesutil/lines.go:24-35 | One entry per '\n'-separated line. An entry of a line that a '\n' ends is its length without a '\r' right before that '\n'. The last entry is the number of bytes after the last '\n'. |
| Lines.LengthsAccount | bytesutil/lines.go:24-36 | The entries, the number of '\n' and the number of "\r\n" pairs add up to the length of the data. |
| Lines.LineLengths | bytesutil/lines.go:21-40 | The loop returns 0 followed by `Lengths(data)`, so it has as many entries as '\n' plus 2. Entry k ≥ 1 is the length of line k, without a '\r' before its '\n'; the last entry is the length after the last '\n'. The entries, the newlines and the "\r\n" carriage returns account for every byte. |
| Lines.LeadingZeroLengths | bytesutil/lines.go:22-37 | The facts of `LineLengths` derived from `Lengths`: length, entry values, last entry and the byte account of the list with the leading 0. |
| Lines.PrefixAll | bytesutil/lines.go:48-51 | Each line is prefixed when it is non-empty and stays empty otherwise, position by position. |
| Lines.FirstNonEmpty | bytesutil/lines.go:44-51 | The index of the first non-empty line: every earlier line is empty and the line there is not. |
| Lines.FoldFromEmpty | bytesutil/lines.go:44-52 | Starting from an empty result, leading empty lines write nothing. From the first non-empty line on, the prefixed lines are joined by '\n'. |
| Lines.PrefixLines | bytesutil/lines.go:43-55 | The loop drops the leading empty lines, because a '\n' is written only once the result is non-empty. From the first non-empty line on, it returns the lines joined by '\n', non-empty ones prefixed and empty ones left empty. |
| Lines.PrefixLinesKeepsLineCount | bytesutil/lines.go:44-51 | When the first line is non-empty and the prefix has no '\n', the result has as many '\n' as the input. |
| Text.SkipNewlines | bytesutil/text.go:32-34 | The first loop stops at the first byte after position 1 that is not '\n'. |
| Text.TabRun | bytesutil/text.go:36-43 | The indentation is the number of consecutive tabs from there on. |
| Text.Indentation | bytesutil/text.go:32-43 | The two loops compute exactly `TabRun(s, SkipNewlines(s, 1))`. |
| Text.CheckLastLine | bytesutil/text.go:51-59 | The check accepts exactly when the last line is '\n' followed by exactly indentation - 1 tabs. |
| Text.Dedent | bytesutil/text.go:61-82 | The line loop computes `DedentFrom`: an empty line becomes "\n", and any other line loses its first n bytes (tabs or not) and gets a '\n'. A non-empty line shorter than n is rejected. |
| Text.TrimmedIndentations | bytesutil/text.go:22-83 | Empty input is returned unchanged, and input not starting with '\n' is rejected. Without tabs after the leading newlines, the first byte is dropped and the rest is returned. The last-line error is raised exactly when there is an indentation n ≥ 1 and the last line is not '\n' and n - 1 tabs. The missing-indentation error comes only after both checks passed. |
| Text.TrimIndentations | bytesutil/text.go:22-83 | The code computes `TrimmedIndentations`, with its three panics as errors. |
| Text.DedentAccepts | bytesutil/text.go:67-76 | Dedenting fails exactly when some non-empty line is shorter than the indentation, and then with the missing-indentation error. |
| Text.DedentIndented | bytesutil/text.go:65-80 | Dedenting lines indented by n tabs (empty lines left empty) gives back each line followed by '\n'. |
| Text.TrimmedIndentationsDedents | bytesutil/text.go:45-80 | Once the indentation n ≥ 1 and the last line are accepted, the result is the dedented lines between the first byte and the last line. |
| Text.IndentedLiteralShape | bytesutil/text.go:27-59 | When the first line is non-empty and does not start with a tab, a literal written in indented code passes both checks of the source. It starts with '\n', its indentation is n, and its last line is '\n' plus n - 1 tabs. |
| Text.IndentedLiteralTrims | bytesutil/text.go:22-83 | For such a literal, TrimIndentations returns the dedented lines between the leading '\n' and the last line. |
| Text.TrimIndentationsRoundTrip | bytesutil/text.go:22-83 | Trimming the indentation of such a literal whose lines are free of '\n' gives back its lines, each followed by '\n'. |
| Text.ReplaceNewlinesLines | bytesutil/text.go:93 | Replacing every '\n' by '\n' plus the prefix leaves the first line unchanged and puts the prefix in front of every further line. |
| Text.PrefixContinuationLines | bytesutil/text.go:91-99 | Every line after the first gets the prefix. After a final '\n' the empty last line stays empty. |
| Text.PrefixContinuationKeepsNewlines | bytesutil/text.go:91-99 | With a prefix free of '\n', the number of '\n' and the first line are kept. |
| Text.ContinuationPieces | bytesutil/text.go:91-99 | The result is the join, by '\n', of one '\n'-free piece per input line, the first piece being the first line. |
| Text.WordAfterFirstMatch | bytesutil/text.go:107-122 | "" when `substring + " "` does not occur. Otherwise the longest space-free run right after its first occurrence, ending at a space or at the end. The result never contains a space. |
| Text.FirstMatch | bytesutil/text.go:305-322 | The first line from a position on that a guard matches: no earlier line matches. |
| Text.BlocksGuarded | bytesutil/text.go:305-322 | Every block starts with a begin line and ends with an end line, and no line in between matches the end guard. |
| Text.BlocksNeedEnd | bytesutil/text.go:305-322 | Without a line the end guard matches there are no blocks. End lines outside a block are ignored. |
| Text.BlocksClose | bytesutil/text.go:306-318 | An open block closes at the first later end line, and the scan goes on after it. |
| Text.BlocksUnclosed | bytesutil/text.go:305-325 | A block that is still open at the end of the input is dropped. |
| Text.ScanInside | bytesutil/text.go:311-322 | Inside a block, the state machine of the loop closes the block at the first end line, or yields nothing when none follows. |
| Text.ScanBlocks | bytesutil/text.go:303-325 | From the initial state, the state machine of the loop yields exactly the blocks of `Blocks`, each as '\n'-terminated lines. |
| Text.GuardedBlocks | bytesutil/text.go:298-326 | A nil end guard means the begin guard also closes blocks. The loop returns the blocks of the '\n'-separated lines, in order, each as its lines followed by '\n'. |
| Sort.Insert | bytesutil/sort.go:12 | Inserting adds exactly one element: one more element and the same multiset plus it. |
| Sort.SortStrings | bytesutil/sort.go:12 | The sort returns a permutation of its input, of the same length. |
| Sort.InsertSorted | bytesutil/sort.go:12 | Inserting into a sorted list keeps it sorted. |
| Sort.SortStringsSorted | bytesutil/sort.go:12 | The sort returns ascending output in Go's byte-wise string order. |
| Sort.SortStringsOfSorted | bytesutil/sort.go:12 | Sorted input is returned unchanged. |
| Sort.SortLinesLines | bytesutil/sort.go:9-15 | The result's lines are a sorted permutation of the input's lines. There are as many lines and as many '\n' as in the input. |
| Sort.SortLinesOfSorted | bytesutil/sort_test.go:38-51 | Input whose lines are already sorted is returned unchanged. |
| Sort.SortLinesSingleLine | bytesutil/sort_test.go:20-23 | A single line is returned unchanged. |
| Sort.SortLinesIdempotent | bytesutil/sort.go:9-15 | Sorting the sorted lines again changes nothing. |
| Sort.SortLinesAndTrimSpace | bytesutil/sort.go:18-23 | The result is `SortLines(s)` with its leading and trailing white space removed. It is the slice that starts right after the leading white space, only white space follows it, and it neither starts nor ends with white space. |
| PathOperator.CommonPrefixLength | path_operator.go:19-28 | The length of the longest common prefix: both paths agree up to it and differ right after it. |
| PathOperator.LastSeparator | path_operator.go:30-31 | The position of the last separator before a bound, or 0 when there is none. |
| PathOperator.CommonIndex | path_operator.go:24-35 | The cut against one path keeps a common prefix of both paths, no longer than their common prefix. It falls at the start, at the shorter length, or at a separator, and no separator the two paths share lies after it: on a difference the cut is at the last shared separator. |
| PathOperator.CurrentCommonIndex | path_operator.go:24-35 | The inner loop computes `CommonIndex`. |
| PathOperator.GreatestCommonDirectory | path_operator.go:8-41 | The outer loop computes `CommonDirectory`: "" for no paths, the path itself for one path. The result is a prefix of every path. It is greatest: every directory, written without a trailing separator, that all paths lie in is a directory of the result. |
| PathOperator.CommonIndexMaximal | path_operator.go:24-35 | A directory (without trailing separator) that both paths lie in ends at or before the cut, at the cut or at a separator of the candidate. |
| PathOperator.CutAllKeepsDirectories | path_operator.go:16-38 | Cutting against every path keeps each directory that the candidate and all those paths lie in. |
| PathOperator.CommonDirectoryGreatest | path_operator.go:8-9 | The result is greatest: every directory, written without a trailing separator, that all paths lie in is a directory of the result. |
| PathOperator.CutAllPrefix | path_operator.go:16-38 | The candidate only shrinks. The result is a prefix of the first path and of every path it was cut against. |
| PathOperator.CommonDirectoryPrefix | path_operator.go:8-9 | The result is a prefix of every input path. |
| PathOperator.NoCommonFirstComponent | path_operator.go:24-37 | Paths that first differ before any separator have no common part. |
| PathOperator.CommonIndexEqual | path_operator.go:24-37 | Cutting a path against itself drops a trailing separator and keeps everything else. |
| PathOperator.CommonDirectoryExamplesEqual | path_operator_test.go:32-61 | Equal paths, with or without trailing separators, give "pkg/a". |
| PathOperator.CommonDirectoryExamplesDiffer | path_operator_test.go:62-91 | "pkg/a" and "pkg/b" give "pkg"; "pkg/a" and "other/a" give ""; "pkg/a/b" and "pkg/c" give "pkg". |
| PathOperator.CommonDirectoryNotADirectory | path_operator.go:30-34 | As written: "pkg/a" and "pkg/ab" give "pkg/a", which is not a directory of "pkg/ab". |
| PathOperator.DirectoryCommonIndex | path_operator.go:24-35 | The corrected cut against one path is a common prefix that is a directory of both paths. It falls at the start, at the shorter length, or at a separator, and no shared separator lies after it. |
| PathOperator.DirectoryCommonIndexKeepsDirectories | path_operator.go:24-35 | Corrected: every directory, without trailing separator, that both paths lie in is a directory of the cut, so the cut is the largest common directory of the two. |
| PathOperator.DirectoryCutAllKeepsDirectories | path_operator.go:16-38 | Corrected: cutting against every path keeps each directory that the candidate and all those paths lie in. |
| PathOperator.DirectoryCutAllInDirectory | path_operator.go:16-38 | Corrected: the result of cutting against every path is a directory of the first path and of every path it was cut against. |
| PathOperator.GreatestCommonDirectoryOfInDirectory | path_operator.go:8-9 | Corrected: the result is a directory of every input path. |
| PathOperator.GreatestCommonDirectoryOfGreatest | path_operator.go:8-9 | Corrected: the result is the greatest common directory. Every path lies in it, and it lies in every other directory, written without a trailing separator, that all paths lie in. |
| PathOperator.GreatestCommonDirectoryOfExample | path_operator.go:30-34 | Corrected: "pkg/a" and "pkg/ab" give "pkg". |
| PathOperator.EnvironmentPathList | path_operator.go:44-48 | The PATH entries: at least one, none containing ':', and joined with ':' they give PATH back. |
| PathOperator.KeepUnmatched | path_operator.go:55-63 | The filter keeps at most as many entries as it is given. |
| PathOperator.KeepUnmatchedMembers | path_operator.go:55-63 | Exactly the entries that contain no search term are kept. |
| PathOperator.KeepUnmatchedAt | path_operator.go:55-63 | One more entry is kept, after the ones before it, exactly when it contains no term. |
| PathOperator.ContainsAnyTerm | path_operator.go:56-60 | The inner loop decides whether some term occurs in the entry. |
| PathOperator.RemoveFromEnvironmentPathBySearchTerm | path_operator.go:51-66 | The labelled loop returns the unmatched entries of PATH, in order, joined with ':'. |
| PathOperator.RemoveNothing | path_operator.go:51-66 | Without search terms, PATH comes back unchanged. |
| PathOperator.KeepAllUnmatched | path_operator.go:55-63 | Without search terms, every entry is kept. |
| PathOperator.RemoveEverything | path_operator.go:56-58 | The empty search term occurs in every entry, so the result is "". |
| PathOperator.KeepNone | path_operator.go:55-63 | When every entry matches, nothing is kept. |
| Files.FilePathsByHierarchy.constructor | files.go:79 | The conversion of a slice to `FilePathsByHierarchy` holds that slice. |
| Files.FilePathsByHierarchy.Len | files.go:82-84 | The number of paths. |
| Files.FilePathsByHierarchy.Swap | files.go:87-89 | The two paths trade places, every other path stays where it was, and the paths are a permutation of the old ones. |
| Files.FilePathsByHierarchy.Less | files.go:92-107 | The loop decides `HierarchyLess`. Fewer components sort first. With equally many components, some component must be smaller than the one at the same position. |
| Files.HierarchyLessIrreflexive | files.go:92-107 | No path sorts before itself. |
| Files.FewerSeparatorsFirst | files.go:96-98 | A path with fewer separators sorts before one with more, and not the other way round. |
| Files.DirectoryFirst | files.go:96-98 | A directory sorts before every path inside it. |
| Files.HierarchyLessNotAsymmetric | files.go:100-104 | As written: "a/z" sorts before "b/a" and "b/a" before "a/z". |
| Files.FirstDifferenceLessStrictOrder | files.go:100-106 | Corrected, comparing at the first differing component: irreflexive, asymmetric and transitive. |
| Files.FirstDifferenceLessExample | files.go:100-106 | Corrected: "a/z" sorts before "b/a" and not the other way round. |
| Archive.TarCompression | archive.go:72-77 | XZ exactly for names ending in ".xz", GNU zip otherwise, never no compression. |
| Archive.ExtractFileRouting | archive.go:46-54 | ".tar.gz" names are read as GNU-zipped TAR and ".tar.xz" names as XZ TAR. ".zip" names are extracted as ZIP. Every other name is an unknown compression. Each holds in both directions. |
| Archive.DotDotSlashSplit | archive.go:269 | "../" occurs in a path exactly when its first component ends in ".." or "../" occurs after the first separator. |
| Archive.DotDotSlashComponents | archive.go:269 | "../" occurs in a path exactly when some component other than the last ends in "..". |
| Archive.ValidRelPathComponents | archive.go:268-273 | A name is accepted exactly when it is non-empty, has no backslash, does not start with '/', and no component but the last ends in "..". |
| Archive.ValidRelPathAccepted | archive.go:268-273 | "..", "a/.." and "a/b" are accepted. |
| Archive.ValidRelPathRejected | archive.go:268-273 | "", "/a", "a\\b", "../a" and "a/../b" are rejected. |
| Env.EnvironMap | env.go:10-19 | The loop builds `EnvironFrom` over the entries. An entry without '=' is an error, where the source would index past its split. |
| Env.EnvironFromFails | env.go:13-16 | Building the map fails exactly when some entry has no '='. |
| Env.EnvironFromKeys | env.go:13-16 | The keys of the map are the texts before the first '=' of the entries. |
| Env.EnvironFromUntouched | env.go:13-16 | Entries with other keys leave a key's value alone. |
| Env.EnvironFromLastWins | env.go:13-16 | A key maps to everything after the first '=' of its last entry: later duplicates overwrite earlier ones. |
| Env.EnvOrDefault | env.go:22-28 | The value when the key is set, even when it is empty, and the default otherwise. |
| Env.RequireEnv | env.go:31-37 | An error naming the key exactly when it is unset, the value otherwise. |
| Env.EnvOrDefaultRequireEnv | env.go:22-37 | `EnvOrDefault` is `RequireEnv` with the error replaced by the default. |
| Env.IsEnvEnabled | env.go:41-59 | The loop decides `EnvEnabled`. An unset key is never enabled. A set key is enabled when its lower-cased value is "1", "true", "on" or "yes", or equals one of the additional values. |
| Env.EnvEnabledIgnoresCase | env.go:46 | Values that differ only in letter case enable alike. |
| Env.EnvEnabledExamples | env_test.go:30-75 | The cases of the tests: "1", "yes", "on", "true", "True" and "TRUE" enable; "0" and "" do not. "positive" is enabled by the additional value "positive", "negative" is not, and an unset key is not. |
| Env.UpperCaseAdditionalValueNeverMatches | env.go:52-56 | As written: the additional value "Positive" does not enable the value "Positive". |
| Env.EnvEnabledIgnoringCaseMatches | env.go:40 | Corrected: a value equal to an additional value up to case enables. |
| Env.EnvEnabledIgnoringCaseAgrees | env.go:46-56 | Corrected and as written agree whenever the additional values are lower case. |
| Env.EnvEnabledIgnoringCaseExample | env.go:40 | Corrected: the additional value "Positive" enables the value "Positive". |
| Conversion.AnySliceToTypeSlice | conversion.go:4-12 | The loop returns the elements that have the type, converted, in input order, and no more elements than the input. |
| Conversion.ConvertedLength | conversion.go:5-9 | At most one output element per input element. |
| Conversion.ConvertedAppend | conversion.go:5-9 | Converting a concatenation converts each part, in order. |
| Conversion.ConvertedOrigin | conversion.go:5-9 | Order is kept: the output is what precedes a matching element, that element, then what follows it. |
| Conversion.ConvertedMembers | conversion.go:5-8 | Every output element is the conversion of some input element. |
| Conversion.ConvertedAll | conversion_test.go:35-47 | When every element has the type, each one is kept and converted, position by position. |
| Conversion.ConvertedEmpty | conversion_test.go:27-33 | The output is empty (Go's nil) exactly when no element has the type, nil input included. |
| Sync.SyncedMap.constructor | sync.go:14-18 | A new map is empty. |
| Sync.SyncedMap.Delete | sync.go:21-26 | The key is removed and every other entry stays; deleting an absent key changes nothing. |
| Sync.SyncedMap.Get | sync.go:29-36 | The stored value and true, or the zero value and false for an absent key. The map is unchanged. |
| Sync.SyncedMap.Set | sync.go:39-44 | The key maps to the value afterwards, and every other entry stays. |
| Templates.MergeFuncMaps | templateutil/defaults.go:34-45 | The two loops build a new map with the keys of both. A key in both takes the entry of b, and a key only in a keeps its entry: the right-biased union a + b. |
| Templates.LowerFirst | templateutil/defaults.go:18-20 | A result exactly for non-empty strings; the empty string is the index panic of the source. |
| Templates.LowerFirstProperties | templateutil/defaults.go:18-20 | Only the first character changes, and it is no upper-case letter afterwards. The result lower-cases to the same string, and a second application changes nothing. |
| Permission.LastSlash | permission.go:19 | The position of the last '/' of an absolute path. |
| Permission.Dir | permission.go:19 | `filepath.Dir` of a clean absolute path is absolute and shorter, except for "/". |
| Permission.StatAncestor | permission.go:17-28 | The ancestor the walk stops at is one that stat succeeds on. |
| Permission.DirAncestors | permission.go:17-28 | The ancestors of a path are its parent and the parent's ancestors. |
| Permission.StatAncestorNearest | permission.go:17-28 | The walk never stats the path itself, and finds the longest ancestor that stat succeeds on. It finds none exactly when stat fails on every ancestor, "/" included; the source then retries "/" forever. |
| Permission.StatParent | permission.go:17-28 | The loop computes `StatAncestor`. |
| Permission.PermissionOf | permission.go:11-33 | The steps shared by both functions: an error of `filepath.Abs`, no return at all, or the ancestor's mode masked. |
| Permission.DirectoryPermissionOfParent | permission.go:11-33 | The ancestor's mode & 0777, with no bit outside 0777. |
| Permission.FilePermissionOfParent | permission.go:37-59 | The ancestor's mode & 0666, with no bit outside 0666 and no execute bit. |
| Permission.FileIsDirectoryWithoutExecute | permission.go:30-56 | For the same path and file system, the file permission is the directory permission & 0666, which is that permission without execute bits. |
| Permission.PermissionExamples | permission_test.go:103-128 | Parents with mode 0700, 0770 and 0777 give the directory and file permissions of the tests. Without any existing ancestor, the walk does not return. |
| Limits.EnforceProcessTreeLimits | limits_linux.go:17-28 | No watchdog exactly when the limit is 0. The interval is 2 s when unset and the given value otherwise, never 0. |
| Limits.WatchdogThreshold | limits_linux.go:36-39 | The callback runs exactly when the usage is at least (limit + 1) × 1024 KiB. It receives the usage rounded down to MiB, which is above the limit, and the limit. |
| Limits.AddUint | limits_linux.go:64 | Go's `uint` addition stays below 2^64. |
| Limits.ParseLine | limits_linux.go:56-63 | An empty trimmed line is the empty-line error. A line parses exactly when its trimmed text is non-empty and an integer. |
| Limits.GetProcessTreeMemoryUsage | limits_linux.go:48-68 | The loop computes `MemoryUsageFrom` over the lines of the trimmed output. |
| Limits.FirstFailing | limits_linux.go:55-65 | The first line that does not parse: every earlier line parses. |
| Limits.MemoryUsageErrors | limits_linux.go:55-65 | The parse succeeds exactly when every line parses. Otherwise it fails with the error of the first line that does not. |
| Limits.MemoryUsageValue | limits_linux.go:55-65 | A successful parse yields the sum of the integers modulo 2^64. |
| Limits.MemoryUsageOfBlankOutput | limits_linux.go:54-59 | Output of nothing but white space is the empty-line error. |
| InfoLinux.ScanRelease | info_linux.go:43-62 | The loop over the lines of the release file computes `ScanFrom`; what `ScanFrom` records is stated by `ScanLastWins`. |
| InfoLinux.NameLineAccepted | info_linux.go:43-61 | The line "NAME=Linux" is scanned without error. |
| InfoLinux.EmptyValuePanics | info_linux.go:48-50 | As written: a release file with the line "ID=" makes the scan index past the end of the empty value. |
| InfoLinux.ScanLineChecked | info_linux.go:44-61 | Corrected line: it fails exactly when a quoted value is rejected by Unquote. Otherwise it records at most the entry the key maps to, with the line's value (unquoted when it starts with a double quote), and leaves every other entry alone. |
| InfoLinux.ScanCheckedErrors | info_linux.go:43-62 | Corrected scan: it fails exactly when some quoted value is rejected by Unquote, and never on an empty value. |
| InfoLinux.ScanLineAgrees | info_linux.go:48-61 | Where the value is not empty, the corrected and the written line handling agree. |
| InfoLinux.ScanCheckedAgrees | info_linux.go:43-62 | Wherever the source does not panic, the corrected scan returns what the source returns. |
| InfoLinux.Entry | info_linux.go:56-61 | Only NAME and VERSION_ID are recorded, as ProductName and ProductVersion. |
| InfoLinux.RecordedEntriesBound | info_linux.go:56-61 | The scan records at most the two entries ProductName and ProductVersion. |
| InfoLinux.ScanCheckedKeys | info_linux.go:43-62 | After a scan, the entries are the ones before plus the ones recorded for NAME and VERSION_ID lines. |
| InfoLinux.ScanCheckedUntouched | info_linux.go:56-61 | Entries other than ProductName and ProductVersion keep their values. |
| InfoLinux.ScanCheckedUnrecorded | info_linux.go:43-62 | An entry that no line is recorded under keeps its value through the scan. |
| InfoLinux.ScanCheckedLastWins | info_linux.go:43-62 | Corrected scan: the last NAME (VERSION_ID) line wins; ProductName (ProductVersion) holds its value, unquoted when quoted. |
| InfoLinux.ScanLastWins | info_linux.go:43-62 | The scan as written, wherever it succeeds: the last NAME (VERSION_ID) line wins; ProductName (ProductVersion) holds its value, unquoted when quoted. |
| InfoLinux.ReleaseData | info_linux.go:36-42 | /etc/os-release is read, and /etc/lsb-release only when the former cannot be read. |
| InfoLinux.Info | info_linux.go:25-67 | The steps of Info compute `InfoOf`. |
| InfoLinux.InfoFails | info_linux.go:31-41 | Info fails without a kernel release, or when neither release file can be read. A successful Info had both. |
| InfoLinux.InfoEntries | info_linux.go:34-64 | A successful Info holds the trimmed kernel release, which no release line overwrites, and the PATH of the environment, whether /etc/os-release or /etc/lsb-release was read. |
| InfoLinux.InfoReleaseEntries | info_linux.go:34-64 | A successful Info holds, under ProductName (ProductVersion), the value of the last NAME (VERSION_ID) line of the release file read, unquoted when quoted. |
| InfoDarwin.ScanSoftwareVersions | info_darwin.go:42-48 | The loop over the lines of the `sw_vers` output computes `SoftwareVersionsFrom`. |
| InfoDarwin.SoftwareVersionsKeys | info_darwin.go:42-48 | Every key of a line with ':' is recorded verbatim, and no other key is added. |
| InfoDarwin.SoftwareVersionsUntouched | info_darwin.go:42-48 | Lines with other keys leave an entry alone. |
| InfoDarwin.SoftwareVersionsLastWins | info_darwin.go:47 | A key takes the trimmed text after the first ':' of its last line, further ':' included: later duplicates overwrite earlier ones. |
| InfoDarwin.Info | info_darwin.go:27-53 | The steps of Info compute `InfoOf`. |
| InfoDarwin.InfoFails | info_darwin.go:30-41 | Info fails exactly when one of its two queries fails, and the first failing query names the error. |
| InfoDarwin.InfoPath | info_darwin.go:50 | A successful Info always holds the PATH of the environment, "" when it is unset. |
| InfoDarwin.InfoKernelVersion | info_darwin.go:34 | The kernel version is stored trimmed, unless a `sw_vers` line with the key KernelVersion overwrites it. |
| InfoDarwin.InfoKeys | info_darwin.go:34-50 | The entries are the kernel version, PATH, and the keys of the `sw_vers` lines. |

## Left out

- Stdout/stderr capture (`capture*.go`), `context.go`, and the other files outside the modules above are not part of this model. Their point is file descriptors, signals, goroutines and file, network or hash I/O.
- The watchdog goroutine of `EnforceProcessTreeLimits` (its loop, the sleep, the panic on a parse error) is left out. `Limits.WatchdogCheck` models one check of that loop. `SetRLimitFiles` is left out too.
- The channel and goroutine of `Split` are left out. The segments are returned as one sequence in delivery order.
- The extraction loops of `archive.go` are left out. `Archive.ExtractFile` models only which extractor a name goes to.
- `strconv.Atoi`, `strconv.Unquote`, `filepath.Abs`, `os.Stat`, Go's type assertion, the environment and the outputs of external commands are parameters. Their own behaviour is not modelled.
- `EnvironmentPathIdentifier` is defined in a file that is not part of this model. Its value is taken as "PATH".
- Go's `sort.Strings` is replaced by an insertion sort. A sorted permutation of strings is unique, so the result agrees, but the algorithm and its comparisons are not modelled.
- Windows paths and the Windows branches (path separator '\\', `info_windows.go`) are not modelled. The path separator is '/' and the PATH list separator ':'.
- The read-write mutex of `SyncedMap` is not modelled. Each call is one atomic step.
- Text is modelled as one character per byte. `strings.ToLower`, `strings.TrimSpace` and `unicode.IsSpace` are modelled on ASCII only.
- Templates.LowerFirst: only ASCII letters are lower-cased. `unicode.ToLower(rune(s[0]))` also lower-cases a first byte in the Latin-1 range and then encodes it as two UTF-8 bytes, which the model does not capture.
- Text.TrimIndentations: the panic messages are not modelled, including the line number of the missing-indentation panic.
- Text.GuardedBlocks: the regular expressions are predicates on lines. RE2 matching is not modelled.
- Limits.ParseLine: `strconv.Atoi` results are unbounded integers. Go's 64-bit `int` range is left to the `atoi` parameter, which can reject out-of-range values.

## Findings

| source | as written | input that shows it | evidently intended | confidence | as-written member | corrected member |
|---|---|---|---|---|---|---|
| path_operator.go:30-34 | When one path continues the other past their common end without a separator, the whole shorter path is kept. | `GreatestCommonDirectory(["pkg/a", "pkg/ab"])` returns "pkg/a", which is not a directory of "pkg/ab". | The greatest common directory, "pkg": cut only at a separator or at the end of both paths. | not executed | PathOperator.CommonDirectoryNotADirectory | PathOperator.GreatestCommonDirectoryOfGreatest |
| files.go:100-104 | For equally many components, `Less` is true when ANY component is smaller, so it is not asymmetric. | `Less("a/z", "b/a")` and `Less("b/a", "a/z")` are both true, so `sort.Sort` gets no consistent order. | Compare at the first differing component, a strict order. | not executed | Files.HierarchyLessNotAsymmetric | Files.FirstDifferenceLessStrictOrder |
| env.go:52-56 | The additional values are compared with the lower-cased value without being lower-cased themselves. | `IsEnvEnabled` with value "Positive" and additional value "Positive" returns false. | Capitalisation ignored on both sides, as the documentation at env.go:40 says. | not executed | Env.UpperCaseAdditionalValueNeverMatches | Env.EnvEnabledIgnoringCaseAgrees |
| info_linux.go:49-50 | `v[0]` is read without checking that the trimmed value is non-empty. | A release file with the line "ID=" panics with an index out of range. | A key without a value is recorded as empty instead of stopping Info. | not executed | InfoLinux.EmptyValuePanics | InfoLinux.ScanCheckedErrors |
