# clang-tidy daemon core, modelled in Dafny

The daemon (`daemon/src/main.rs`) sits between clang-tidy and an editor
client. It speaks JSON-RPC, runs clang-tidy on files, and turns clang-tidy's
output into LSP-style diagnostics. This project models the sequential logic
inside it:

- **Compile commands.** Splitting a compile command into arguments, resolving
  an entry's argument list, and swapping the source file for a temporary path.
  Building the compile-commands index (all files in order, first entry per
  path) and looking files up in it.
- **Post-processing diagnostics.**
  - Keying diagnostics and merging the exported fixes into the parsed findings.
  - Keeping the findings of the analysed file.
  - The per-file caps on diagnostics and on fixes.
  - Converting diagnostics to their RPC form, normalising severities, and
    turning 1-based line and column into ranges.
- **Offsets to positions.** A text's line starts (byte offsets), and turning a
  byte offset into a line and UTF-16 column.
- **The result caches.**
  - The in-memory map from path to the last result.
  - The on-disk directory of versioned entries: file names, reading,
    writing and clean-up.
  - The combined lookup of `analyze_file`, and the cheaper `is_cached` used by
    incremental project runs.
- **Project runs.**
  - The map from run id to cancel flag, and the `cancel` request.
  - The incremental filter, the split into batches, the per-task cancel check,
    publishing, and progress reports every tenth file and at the end.

The modules follow the structure of the source:

| file | module | contents |
|---|---|---|
| `wrappers.dfy` | `Wrappers` | `Option` |
| `machine.dfy` | `Machine` | `u32`/`u64`, paths, decimal and 16-digit hex formatting |
| `paths.dfy` | `Paths` | `Path::components`, which `PathBuf` equality and hashing compare |
| `diagnostic_types.dfy` | `DiagnosticTypes` | `Position`, `Range`, `TextEdit`, `Fix`, `RpcDiagnostic`, `InternalDiagnostic` |
| `command_line.dfy` | `CommandLine` | `split_command`, `resolve_arguments`, `replace_file_arg` |
| `diagnostics.dfy` | `Diagnostics` | `diag_key`, `merge_diagnostics`, `apply_diagnostic_caps`, `to_rpc_diagnostic`, `normalize_severity`, `range_from_line_col` |
| `positions.dfy` | `Positions` | `build_line_starts`, `offset_to_line_col`, `offset_range` |
| `result_cache.dfy` | `ResultCache` | `cache_file_name`, `read_disk_cache`, `write_disk_cache`, `is_cached`, the lookup of `analyze_file` |
| `analysis.dfy` | `Analysis` | `analyze_file`: post-processing and the cache updates |
| `cancellation.dfy` | `Cancellation` | the cancel flag map and the `cancel` request |
| `compile_index.dfy` | `CompileIndex` | `get_compile_index`, `file_in_index`, `find_compile_entry`, `load_project_files` |
| `project_run.dfy` | `ProjectRun` | the thread body of `analyzeProject` |

### Modelling choices

**Loops.** The source's loops are methods with loops. Each one is proved
equal to a specification function, and the lemmas are stated about that
function:

- `SplitCommand` equals the left fold `Split` of one lexer step per character.
- `ReplaceFileArg` updates an `array` in place.
- `BuildLineStarts` is a loop over the UTF-8 bytes.
- `CapFixes` carries the running `remaining` budget.
- `BuildCompileIndex` is the `or_insert` loop.
- `MergeDiagnostics` is built from the two map-building loops.
- `Cancel` covers the `"*"` loop.
- `RunBatches` is the nested loop over batches and the files in each batch.

**Text.** Text is a `string` of Unicode scalar values, as Rust's `&str` is.
Its UTF-8 encoding `Utf8` is derived from it with the real byte widths, and
byte offsets (clang-tidy's) index that encoding.
- Slicing a `&str` off a character boundary panics. `OffsetToLineCol` and
  `OffsetRange` return `None` there instead of assuming the case away.
- The column is the number of UTF-16 code units, with two units for
  characters above U+FFFF.

**Inputs.** Whatever the daemon gets from the operating system, from hashing or
from other processes is an argument of the model:

- the `(mtime, size)` signature of a file, as `Option<Signature>`;
- `cache_key_for_path` and `settings_fingerprint`, as `u64` values;
- `std::fs::canonicalize` with its fallback, as a function `canonical`, whose results are compared by their components;
- the parsed `compile_commands.json`, as optional entries;
- the result of running clang-tidy, as a `ClangRun`;
- whether a disk write went through (`persisted`, `listed`);
- whether a path converts to a file URI (`publishable`);
- whether the `i`-th task of a run saw its cancel flag (`sawCancel`).

**Order.** `merge_diagnostics` returns the values of a `HashMap`. The model
picks them in an arbitrary order (`:|`). Its contract says nothing about
order, and so nothing about which merged diagnostics survive the later
truncation.

**Paths.** A path is its string form (a `Path`). Wherever the source compares
or hashes a `PathBuf` (the keys of the in-memory cache, `load_project_files`'
set, the index's `file_set` and `commands`, `existing.path == path`, and
`paths_match`), the model compares `Components(p)` instead. That is Rust's
Unix component form: a root, a leading `.` of a relative path, and the
segments without empty and `.` ones. So `/w/a.cpp`, `/w//a.cpp`,
`/w/./a.cpp` and `/w/a.cpp/` are one key, and `a.cpp` and `./a.cpp` are two.
Where the source compares or hashes the `to_string_lossy` string
(`cache_key_for_path`, the `file_path` check of a disk entry), the model
compares strings. `canonical` stands for `std::fs::canonicalize` with its
fallback and may return any spelling; its results are compared by their
components.

**The cache directory** is a map from file name to a file that either decodes
as a `DiskCacheEntry` or does not.

## Model

| member | source | states |
|---|---|---|
| Machine.DecimalRoundTrip | daemon/src/main.rs:1224-1226 | decimal formatting of a number (as in cache file names and keys) reads back as that number |
| Machine.DecimalInjective | daemon/src/main.rs:1046-1055 | different numbers never format to the same decimal string |
| Machine.HexRoundTrip | daemon/src/main.rs:1224-1226 | `{:0w x}` formatting of a number below 16^w reads back as that number |
| Machine.Hex16Injective | daemon/src/main.rs:1224-1226 | different `u64` values never format to the same 16-digit hex string |
| Machine.SplitAtSeparator | daemon/src/main.rs:1046-1055 | when the fields before a separator do not contain it, a joined string determines both the field and the rest |
| Paths.ComponentsClean | daemon/src/main.rs:621-622 | no component of a path key is empty or `.` |
| Paths.RepeatedSeparatorIgnored | daemon/src/main.rs:621-622 | `a//b` and `a/b` are one `PathBuf` key |
| Paths.CurDirIgnored | daemon/src/main.rs:1391-1407 | a `.` segment after the first does not change the key |
| Paths.TrailingSeparatorIgnored | daemon/src/main.rs:1391-1407 | a trailing `/` does not change the key |
| Paths.RootAndCurDirCount | daemon/src/main.rs:1391-1407 | the root and a leading `.` are components: `/a`, `a` and `./a` are three keys |
| CommandLine.SplitCommand | daemon/src/main.rs:988-1026 | the per-character loop returns exactly `Split(command)` and never an empty argument |
| CommandLine.Split | daemon/src/main.rs:988-1026 | the arguments `split_command` returns; none of them is empty |
| CommandLine.EscapedRun | daemon/src/main.rs:996-1020 | outside single quotes, an escaped word is appended to the current argument character for character |
| CommandLine.BackslashInDoubleQuotes | daemon/src/main.rs:996-1004 | inside double quotes a backslash makes the next character literal, `"` included |
| CommandLine.EscapedDoubleQuotedEncodes | daemon/src/main.rs:996-1020 | any word, escaped and put in double quotes, comes back as that one argument |
| CommandLine.EscapeEncodes | daemon/src/main.rs:996-1004 | outside quotes, every character after a backslash is taken literally, whatever it is |
| CommandLine.SingleQuotedEncodes | daemon/src/main.rs:1001-1020 | a single-quoted text without `'` becomes that text: quotes dropped, backslashes, double quotes and whitespace literal |
| CommandLine.DoubleQuotedEncodes | daemon/src/main.rs:1001-1020 | a double-quoted text without `"` or `\` becomes that text, whitespace included |
| CommandLine.PlainJoinRoundTrip | daemon/src/main.rs:1013-1024 | words without quotes, backslashes or whitespace, joined by spaces, split back into the same words |
| CommandLine.EscapeJoinRoundTrip | daemon/src/main.rs:988-1026 | any non-empty words, each fully backslash-escaped and joined by spaces, split back into the same words |
| CommandLine.EmptyQuotesAndTrailingBackslash | daemon/src/main.rs:1001-1024 | `''` yields no argument; a trailing backslash is dropped |
| CommandLine.ResolveArguments | daemon/src/main.rs:1039-1044 | the explicit `arguments` list when present, else the split `command`, else `None` |
| CommandLine.ReplaceFileArg | daemon/src/main.rs:1028-1037 | the array becomes `ReplaceAll` of the old one, and the result is true iff some argument matched |
| CommandLine.ReplaceAll | daemon/src/main.rs:1028-1037 | the arguments after `replace_file_arg`: same length, arguments naming no file unchanged |
| CommandLine.ReplaceAllPointwise | daemon/src/main.rs:1030-1035 | same length; arguments equal to the raw file or the original path become the temporary path; all others unchanged |
| CommandLine.ReplaceAllRemovesMentions | daemon/src/main.rs:1030-1035 | afterwards no argument names the file, when the temporary path is neither name |
| CommandLine.ReplaceAllIdempotent | daemon/src/main.rs:1028-1037 | replacing a second time changes nothing |
| CommandLine.ReplaceAllWithoutMention | daemon/src/main.rs:1028-1037 | arguments that never name the file are left as they are |
| Diagnostics.NormalizeSeverity | daemon/src/main.rs:1067-1074 | `error` and `warning` are kept; every other severity becomes `info` |
| Diagnostics.NormalizeSeverityIdempotent | daemon/src/main.rs:1067-1074 | normalising twice equals normalising once |
| Diagnostics.RangeFromLineCol | daemon/src/main.rs:1076-1083 | a one-character range on one line, 0-based, with 0 saturating at 0 |
| Diagnostics.RangeFromLineColRoundTrip | daemon/src/main.rs:1076-1083 | a 0-based position, reported 1-based, converts back to itself |
| Diagnostics.ToRpcDiagnostic | daemon/src/main.rs:1057-1065 | range, severity, code and message are kept; fixes become `None` exactly when empty |
| Diagnostics.ToRpcDiagnosticRoundTrip | daemon/src/main.rs:1057-1065 | only the file is lost in the conversion |
| Diagnostics.FromRpcDiagnosticRoundTrip | daemon/src/main.rs:1057-1065 | an RPC diagnostic is reproduced iff it does not carry an empty fix list |
| Diagnostics.DiagKeyShape | daemon/src/main.rs:1046-1055 | `diag_key` starts with the file and a colon and ends with a colon and the message |
| Diagnostics.DiagKeyInjective | daemon/src/main.rs:1046-1055 | when paths and codes contain no colon, equal keys mean equal file, start position, code and message |
| Diagnostics.DiagKeyCollision | daemon/src/main.rs:1046-1055 | with a colon in the path, different findings share a key; a missing code keys like an empty one |
| Diagnostics.MergedMapAt | daemon/src/main.rs:896-910 | under each key the map holds the last base diagnostic plus every matching fix, else the first fix diagnostic with all matching fixes |
| Diagnostics.MergedMapKeys | daemon/src/main.rs:896-910 | the keys of the merge are exactly the keys of base and of fixes |
| Diagnostics.MergeDiagnostics | daemon/src/main.rs:896-912 | one diagnostic per key, the keys are those of base and fixes, and each is the one `MergedMapAt` describes |
| Diagnostics.CapFixes | daemon/src/main.rs:921-938 | the loop with its `remaining` counter computes `Capped` |
| Diagnostics.CappedShape | daemon/src/main.rs:925-938 | only fix lists change, and each becomes a prefix of the original |
| Diagnostics.CappedGreedy | daemon/src/main.rs:925-938 | each diagnostic keeps min(its fixes, the budget left after the earlier ones) |
| Diagnostics.CappedTotal | daemon/src/main.rs:921-938 | the total number of fixes kept is min(total, `max_fixes`) |
| Diagnostics.CappedWithinBudget | daemon/src/main.rs:921-938 | within the budget nothing is removed |
| Diagnostics.ApplyDiagnosticCaps | daemon/src/main.rs:914-939 | the first min(len, `max_diags`) diagnostics, or all when 0; fixes untouched when `max_fixes` is 0, else capped |
| Positions.Encode | daemon/src/main.rs:1087 | the UTF-8 bytes of a character, 1 to 4 of them; byte 10 occurs only in the encoding of `'\n'` |
| Positions.Utf16LenAtMostByteLen | daemon/src/main.rs:1115-1116 | a text never has more UTF-16 units than UTF-8 bytes; for ASCII both are its length |
| Positions.CharIndexSpec | daemon/src/main.rs:1114 | the character index of a byte offset exists iff the offset is a character boundary, and it is unique |
| Positions.Clamp | daemon/src/main.rs:1105 | the offset when within the text, and the byte length of the text when at or past its end |
| Positions.BuildLineStarts | daemon/src/main.rs:1085-1093 | the loop over the UTF-8 bytes returns `LineStartsOf` the encoded text |
| Positions.LineStartsCount | daemon/src/main.rs:1085-1093 | line starts begin with 0, one more than the number of newline bytes |
| Positions.LineStartsIncreasing | daemon/src/main.rs:1085-1093 | line starts strictly increase and never exceed the byte length |
| Positions.LineStartsAfterNewline | daemon/src/main.rs:1088-1090 | every line start after the first comes just after a newline byte |
| Positions.LineStartsCoverNewlines | daemon/src/main.rs:1088-1090 | the offset after every newline byte is a line start |
| Positions.LineStartsIgnoresOtherBytes | daemon/src/main.rs:1087-1091 | bytes other than newline add no line start |
| Positions.LineStartsOfUtf8 | daemon/src/main.rs:1085-1093 | the line starts of the bytes equal those computed a character at a time |
| Positions.OffsetToLineCol | daemon/src/main.rs:1104-1117 | clamped; `None` iff the slice panics; else the line bracketing the offset and the UTF-16 column, i.e. the position where the text prefix ends |
| Positions.FindLine | daemon/src/main.rs:1106-1112 | the last line whose start is not after the offset, the next line starting after it |
| Positions.LocatedLine | daemon/src/main.rs:1113-1116 | the UTF-16 length of the slice from that line's start is the column of the text prefix's end |
| Positions.LocateMonotone | daemon/src/main.rs:1095-1102 | a longer prefix of the text never ends at an earlier position |
| Positions.OffsetRange | daemon/src/main.rs:1095-1102 | `None` iff either end falls inside a character; else both ends located, and the start not after the end |
| ResultCache.CacheFileName | daemon/src/main.rs:1224-1226 | `{key:016x}-{mtime}-{size}-{hash:016x}.json`, starting with the key's prefix |
| ResultCache.CacheFileNameInjective | daemon/src/main.rs:1224-1226 | the file name determines key, mtime, size and settings hash |
| ResultCache.KeyPrefixSeparates | daemon/src/main.rs:1311-1318 | files of another key never start with this key's prefix |
| ResultCache.ReadDiskCache | daemon/src/main.rs:1259-1281 | an entry is returned only when it decodes and has the current version, the same path, mtime, size and settings hash |
| ResultCache.ReadDiskCacheFinds | daemon/src/main.rs:1259-1281 | a valid entry under the file name is always returned |
| ResultCache.WriteDiskCache | daemon/src/main.rs:1283-1325 | after a write the entry is under its name; other keys' files are untouched; once the directory is listed, no other file of the key remains |
| ResultCache.ReadAfterWrite | daemon/src/main.rs:1283-1325 | what is written is read back |
| ResultCache.WriteLeavesOtherKeys | daemon/src/main.rs:1310-1322 | a write for one key changes nothing another key reads |
| ResultCache.WriteRemovesStale | daemon/src/main.rs:1310-1322 | after a complete write, an older signature or settings hash of the key reads nothing |
| ResultCache.KeyCollisionRejected | daemon/src/main.rs:1274-1276 | a path whose key collides never reads another path's entry |
| ResultCache.IsCached | daemon/src/main.rs:1327-1345 | no signature: false; an in-memory entry (keyed by the path's components) decides by its signature and hash; otherwise whether the file name exists |
| ResultCache.IsCachedMemoryDecides | daemon/src/main.rs:1335-1337 | with an in-memory entry the disk is not consulted |
| Analysis.StoredResultIsReusedUnderAnotherSpelling | daemon/src/main.rs:621-625 | a result stored in memory for `/w/a.cpp` is reused, and counts as cached, for `/w//a.cpp` |
| ResultCache.CacheLookup | daemon/src/main.rs:621-640 | nothing without a signature; a matching memory entry, found by the path's components, wins over the disk; without a cache directory only memory can answer |
| ResultCache.CacheLookupSound | daemon/src/main.rs:621-640 | diagnostics are reused only from a memory entry or current-version disk entry recorded for this signature, hash (and path) |
| ResultCache.CacheLookupImpliesIsCached | daemon/src/main.rs:1338-1342 | without a memory entry, what the lookup would reuse counts as cached |
| ResultCache.IsCachedAcceptsUnreadable | daemon/src/main.rs:1338-1342 | an undecodable file counts as cached although the lookup rejects it |
| ResultCache.IsCachedIgnoresDiskBehindStaleMemory | daemon/src/main.rs:1335-1337 | a stale memory entry answers "not cached" although the disk holds a valid entry |
| Analysis.PathsMatch | daemon/src/main.rs:1347-1351 | a path always matches itself, and so do paths with one canonical form |
| Analysis.PathsMatchEquivalence | daemon/src/main.rs:1347-1351 | matching is symmetric and transitive (equality of the canonical forms' components) |
| Analysis.ForFile | daemon/src/main.rs:676 | the retained diagnostics are no more than the input, each taken from it and matching the file |
| Analysis.ForFileMembers | daemon/src/main.rs:676 | the filter keeps exactly the diagnostics whose path matches the file |
| Analysis.ForFileAppend | daemon/src/main.rs:676 | the filter works element by element, so it keeps order and repetitions |
| Analysis.ForFileSingleton | daemon/src/main.rs:676 | a single diagnostic is kept iff its path matches the file |
| Analysis.RpcOf | daemon/src/main.rs:678 | one RPC diagnostic per diagnostic, each converted by `to_rpc_diagnostic`, in order |
| Analysis.ForFileDistinct | daemon/src/main.rs:676 | filtering keeps keys distinct |
| Analysis.PostProcess | daemon/src/main.rs:672-678 | the result is the RPC form of: the findings, merged with the fixes when the export parsed (`MergeOf`), filtered to this file (`ForFile`), then capped (`CapsHold`); hence of this file only, at most `max_diags`, with at most `max_fixes` fixes, one per key after a merge |
| Analysis.PostProcessedUncapped | daemon/src/main.rs:672-678 | without an export and without caps, the file's own finding comes back and another file's is dropped |
| Analysis.Caches.AnalyzeFile | daemon/src/main.rs:598-696 | a cache hit is returned (a disk hit copied to memory under the path's components); else failure leaves the caches, success returns the post-processed output of the run and stores it in memory and on disk |
| Analysis.StoredResultIsReused | daemon/src/main.rs:621-625 | after storing a result, the same signature and hash reuse it and count as cached |
| Analysis.StoredResultSurvivesRestart | daemon/src/main.rs:626-640 | a persisted result is found again from an empty memory cache |
| Analysis.ChangedFileIsReanalysed | daemon/src/main.rs:621-640 | a changed signature or settings hash reuses nothing |
| Cancellation.CancelFlags | daemon/src/main.rs:564-575 | no run added or removed; `"*"` sets every flag; an id sets only its own; a missing id changes nothing |
| Cancellation.CancelKeepsSetFlags | daemon/src/main.rs:564-575 | a set flag stays set |
| Cancellation.CancelUnknownIsNoOp | daemon/src/main.rs:571-573 | an unknown id changes nothing |
| Cancellation.CancelIdempotent | daemon/src/main.rs:564-575 | cancelling twice is cancelling once |
| Cancellation.CancelCommutes | daemon/src/main.rs:564-575 | the order of two cancel requests does not matter |
| Cancellation.CancelRegistry.Register | daemon/src/main.rs:414-415 | a new run gets an unset flag, replacing one of the same id |
| Cancellation.CancelRegistry.Cancel | daemon/src/main.rs:564-575 | the flags become `CancelFlags` of the old flags |
| Cancellation.CancelAllKeys | daemon/src/main.rs:564-575 | no sequence of cancel requests adds or removes runs |
| Cancellation.RegisteredRunIsCancelled | daemon/src/main.rs:414-415 | a registered run cancelled by its id or `"*"` has its flag set, whatever came between |
| CompileIndex.JoinPath | daemon/src/main.rs:1425-1429 | the directory, a separator unless it already ends in one, then the file |
| CompileIndex.ResolvedPath | daemon/src/main.rs:1425-1429 | an absolute file as it is, else joined to the directory |
| CompileIndex.FirstEntryForSpec | daemon/src/main.rs:1433-1438 | the entry found for a path exists iff some entry names it, and is the earliest |
| CompileIndex.IndexedFiles | daemon/src/main.rs:1433 | every entry's path, in order, repetitions kept |
| CompileIndex.BuildCompileIndex | daemon/src/main.rs:1419-1447 | files in order, the set of paths, and the first entry per path |
| CompileIndex.FileInIndex | daemon/src/main.rs:1453-1456 | a canonical path is found iff its components are in the index's file set |
| CompileIndex.FindCompileEntry | daemon/src/main.rs:1458-1461 | an entry is found iff the components of the canonical path are a key of the commands, and it is one of the index's entries |
| CompileIndex.LookupsIgnoreSpelling | daemon/src/main.rs:1453-1461 | paths whose canonical forms have the same components are looked up alike |
| CompileIndex.LookupsAgree | daemon/src/main.rs:1453-1461 | `file_in_index` holds iff `find_compile_entry` finds an entry, and that is the file's first entry |
| CompileIndex.IndexFilesInIndex | daemon/src/main.rs:1431-1432 | `file_set` holds exactly the components of the paths in `files` |
| CompileIndex.LoadProjectFiles | daemon/src/main.rs:1391-1407 | `HashSet<PathBuf>` insertion of each entry's resolved path, keeping the first spelling of each file; not empty when there are entries |
| CompileIndex.LoadProjectFilesSpec | daemon/src/main.rs:1391-1407 | every project file is a path some entry names, no file appears under two spellings, and the files' components are exactly the entries' |
| CompileIndex.LoadProjectFilesMergesSpellings | daemon/src/main.rs:1391-1407 | `a.cpp` under `/w` and `./a.cpp` under `/w/` are one project file, `/w/a.cpp` |
| CompileIndex.ProjectFilesMatchIndex | daemon/src/main.rs:1391-1407 | where canonicalisation changes nothing, the fallback file list and the index hold the same files, compared by components |
| CompileIndex.IndexSlot.GetCompileIndex | daemon/src/main.rs:1409-1451 | an index of the same path (by components) and mtime is reused; else a parse failure changes nothing and success builds and stores the index |
| CompileIndex.IndexSlot.ConfigChanged | daemon/src/main.rs:581-588 | the index is dropped when the new settings parse |
| ProjectRun.Retain | daemon/src/main.rs:472 | retain never adds elements |
| ProjectRun.RetainMembers | daemon/src/main.rs:472 | retain keeps exactly the elements that pass |
| ProjectRun.RetainIdempotent | daemon/src/main.rs:472 | retaining twice is retaining once |
| ProjectRun.RetainAll | daemon/src/main.rs:472 | nothing is dropped iff every element passes |
| ProjectRun.IncrementalFiles | daemon/src/main.rs:466-473 | no more files than the project has; a full run keeps them all |
| ProjectRun.IncrementalFilesSpec | daemon/src/main.rs:466-473 | an incremental run analyses exactly the files not cached; a full run all files |
| ProjectRun.IncrementalRunSkipsCached | daemon/src/main.rs:466-473 | with `is_cached` as the test, exactly the files it rejects are analysed, and always those without a signature |
| ProjectRun.EffectiveBatch | daemon/src/main.rs:490 | the batch size, or the total when it is 0; positive whenever there are files |
| ProjectRun.TaskStep | daemon/src/main.rs:503-548 | a task that sees the cancel flag changes nothing; otherwise it analyses its file and publishes at most that file |
| ProjectRun.RunOverBounds | daemon/src/main.rs:491-553 | a run publishes no more files than it analyses, and analyses no more than it was given |
| ProjectRun.CancelledTasksDoNothing | daemon/src/main.rs:503-506 | once every later task sees the cancel flag, the run ends as it stood when the flag was first seen |
| ProjectRun.ChunksFlatten | daemon/src/main.rs:491 | the batches cover the files exactly, in order |
| ProjectRun.ChunksSizes | daemon/src/main.rs:491 | every batch holds 1 to n files, all but the last exactly n |
| ProjectRun.ChunksCount | daemon/src/main.rs:491 | the number of batches is `len / n` rounded up |
| ProjectRun.NoBatchSizeIsOneBatch | daemon/src/main.rs:490-491 | batch size 0 makes one batch of every file |
| ProjectRun.ReportsShape | daemon/src/main.rs:539-548 | reports count upwards, hold exactly every tenth count and the total, and a complete run reports the total last |
| ProjectRun.ReportsCount | daemon/src/main.rs:539-548 | the number of reports is the count over 10, plus one for a total not divisible by 10 |
| ProjectRun.RunOverSpec | daemon/src/main.rs:504-548 | tasks analyse the files not cancelled, publish those that convert, and report by the count published |
| ProjectRun.RunChunk | daemon/src/main.rs:492-548 | the tasks of one batch carry the run on exactly as `RunOver` does over that batch's files |
| ProjectRun.RunBatches | daemon/src/main.rs:490-553 | batch after batch the run analyses, publishes and reports as `RunOverSpec` states |
| ProjectRun.CompleteRunReportsTotal | daemon/src/main.rs:539-548 | without cancellation and with every path converting, every file is published and the last report is the total |

## Left out

- JSON-RPC reading and writing (`main`, `write_json`, `send_notification`) is I/O.
- Request dispatch other than the state it changes is left out: the `initialize` and `analyzeFile` results, and the `configChanged` log message.
- Running clang-tidy is an external process. The timeout loop, the temporary fix file and process spawning are left out. The result is the input `ClangRun`.
- `parse_diagnostics` and `parse_fixes` are left out. They sit on a regex and YAML parsing, and their output is part of `ClangRun`.
- `analyze_file_with_content` (unsaved buffers) is left out, because it needs a temporary file and a rewritten compile_commands.json. It looks up nothing in the caches and stores nothing. It needs the file's compile-index entry and rewrites its arguments with `replace_file_arg`, failing when no argument names the file. Before the merge it sets the file of every finding and every fix to the buffer's path, so the path filter keeps them all; the caps and the conversion are those of `analyze_file`.
- Threads, the thread pool, atomics and mutexes are left out. A project run is modelled sequentially.
- `throttle_publish` sleeps on the wall clock, and the progress percent is floating point. Both are left out.
- `file_signature`, `mtime_for_path`, `clang_tidy_config_mtime`, `find_clang_tidy_config` and `find_compile_commands` query the file system. Their results are inputs.
- `settings_fingerprint` and `cache_key_for_path` use `DefaultHasher`. Their results are inputs.
- `resolve_cache_dir` (directory creation) and `resolve_compile_commands_path` are left out. The cache directory is an optional input.
- The `files` override of `analyzeProject` is left out, because it depends on URL parsing (`uri_to_path`).
- The smoke C++ files are left out; they are fixtures, not daemon logic.
- Diagnostics.MergeDiagnostics: says nothing about output order, because `HashMap::into_values` order is unspecified.
- Diagnostics.ApplyDiagnosticCaps: modelled on values. It returns the capped sequence instead of truncating the `Vec` and its fix lists in place.
- Positions.OffsetToLineCol: requires the line starts of the same text, as `build_line_starts` computes them. That is the only way the daemon calls it. Other tables could make the slice panic in other places, and those panics are not modelled.
- Positions.OffsetToLineCol: an offset inside a character yields `None`. In the source the slice panics there.
- Positions.OffsetRange: `offset + length` is unbounded. The `usize` overflow is not modelled.
- ResultCache.WriteDiskCache: every `remove_file` in the clean-up is taken to succeed, and every directory entry is taken to be readable; `entries.flatten()` (main.rs:1312) skips entries that fail to read, and their files survive the clean-up. The temporary file of `NamedTempFile` is not part of the directory map.
- ResultCache.IsCached: the existence check at line 1341 is modelled as the file name being present in the directory map, readable or not.
- ProjectRun.RunBatches: runs the tasks of a batch one after another, in file order. The pool may run them concurrently. Cancellation reaches each task as `sawCancel`, not as a shared atomic flag.
- ProjectRun.RunBatches: publishing a URI is the input `publishable`, which stands for `Url::from_file_path` succeeding.
- Paths are strings, the `to_string_lossy` form. Non-UTF-8 paths are not modelled, so two byte paths that `to_string_lossy` maps to one string (and so to one `cache_key_for_path` hash and one disk entry `file_path`) are not captured.
- Paths.Components: only Unix separators and components are modelled. Windows prefixes and `\` separators are left out.
- Analysis.Caches.AnalyzeFile: the in-memory and on-disk caches belong to one `Caches` object. In the source the memory cache is shared behind a mutex, and the directory is re-resolved on every call.
- Cancellation.CancelRegistry.Register: the flag is a boolean in the map. In the source a task keeps its own `Arc` to the replaced flag, and the model does not follow that flag after a re-registration.
