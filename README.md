# dirdiff: a verified model of the tree-diff engine

dirdiff compares two directory trees, a *source* (the old state) and a
*target* (the new state), and builds an *output* tree that turns the source
into the target. The output tree gets:

- a copy of every target file whose content differs from the source file at
  the same relative path ("modified");
- a copy of every target entry whose relative path does not occur in the
  source ("added");
- a manifest, `deletedfile.txt`, listing every source entry whose relative
  path does not occur in the target ("deleted").

This project models the engine in `dirdiff/main.cpp` and proves what it
does:

- the command-line loop;
- the recursive walk `findFile`;
- the `FindData` entry, its ordering and its text form;
- sorting by relative path, and the merge algorithms `std::set_intersection`
  and `std::set_difference`;
- the content comparison that picks the modified files;
- `copyProcedure`, which makes the missing ancestor directories and then
  copies;
- the manifest writer;
- the rule that any fault ends the run with exit code -1.

Where the program changes state step by step, the model is imperative. The
walk appends to an `EntryList` object. The host file system is a
`FileSystem` object whose methods change its fields. The loops are `while`
and `for` loops with invariants. Every method is proved equal to a
specification function: `Walk`, `Select`, `Modified`, `CopyEntry`,
`CopyAll`, `Parse` and `RunSpec`. The lemmas then state the program's
promises about those functions.

Modules, one per file:

| module | file | models |
|---|---|---|
| `Wrappers` | wrappers.dfy | `Option`, `Result` |
| `Strings` | strings.dfy | `std::string::find`, `find_first_of`, `operator<`, path components |
| `Entries` | entries.dfy | `FindData`, `operator<` and `operator<<` on it |
| `Enumeration` | enumeration.dfy | `findFile` over an abstract directory tree |
| `SetAlgebra` | set_algebra.dfy | `std::list::sort`, `std::set_intersection`, `std::set_difference` |
| `Classification` | classification.dfy | the loop that picks the modified files |
| `FileSystem` | file_system.dfy | `PathFileExistsA`, `CreateDirectoryA`, `CopyFileA`, the manifest stream |
| `Copying` | copying.dfy | `copyProcedure` and the `for_each` that applies it |
| `Arguments` | arguments.dfy | the `argc`/`argv` loop |
| `Sync` | sync.dfy | `main`: the plan, the phases, the exit code |

Three kinds of input come from outside the program, and the model takes
each as a parameter:

- The host's directory listings are a tree of `Node` values. A directory
  lists its children in the order the host reports them, `.` and `..`
  included, and it can be unreadable.
- `getFileMD5` is a function `md5: string -> string`. In `md5file.cpp` it
  yields `""` for a file it cannot open.
- A `Host` value decides which directory creations, copies and opens the
  host refuses.

Given these inputs, a run is fully determined.

Where a description of the program and the code differ, the model follows
the code, with one exception: the argument loop carries the bounds check
described under "## Findings", because the loop as written has undefined
behaviour there. Elsewhere:

- An unrecognised argument is only logged and skipped; it does not reject
  the command line.
- A flag that never appears leaves its directory as the empty string.
- A file whose hash cannot be computed hashes to `""`, like any other
  value. It is not an error.
- Added *directories* are passed to `copyProcedure` like files, so a
  `CopyFileA` call is made for them. Whether the host accepts that call is
  the `Host`'s choice (`cannotCopy`).

## Model

| member | source | states |
|---|---|---|
| Entries.NewFindData | dirdiff/main.cpp:15-20 | The relative path is the text after the first occurrence of the base directory in the path: `path` is the part before it, then `baseDir`, then the relative path. The other fields are kept. |
| Entries.RelativePathOfJoin | dirdiff/main.cpp:15-20 | A path built as base directory + `s` gets relative path exactly `s`. |
| Strings.Find | dirdiff/main.cpp:18 | `find` returns the first index where the pattern occurs; None means it occurs nowhere. |
| Strings.FindPrefix | dirdiff/main.cpp:18 | A prefix is found at index 0. |
| Strings.FindFirstOf | dirdiff/main.cpp:137 | `find_first_of(c, from)` returns the first index at or after `from` holding `c`; None means there is none. |
| Strings.LessTransitive | dirdiff/main.cpp:35 | The string order is transitive. |
| Strings.LessTotal | dirdiff/main.cpp:35 | Any two strings are equal or one is less: the order is total. |
| Strings.LessAsymmetric | dirdiff/main.cpp:35 | If `a < b` then not `b < a`. |
| Strings.LessIrreflexive | dirdiff/main.cpp:35 | No string is less than itself. |
| Strings.EquivalentIffEqual | dirdiff/main.cpp:35 | Two strings are equivalent under `<` exactly when they are equal. |
| Entries.EquivalentIffSameRelativePath | dirdiff/main.cpp:33-36 | Two entries are equivalent under `operator<` exactly when their relative paths are equal, whatever their kind or full path. |
| Entries.Before | dirdiff/main.cpp:33-36 | `operator<` compares relative paths alone: an entry is never before one with the same relative path. |
| Entries.Line | dirdiff/main.cpp:38-41 | `operator<<` starts the line with `Directory: ` exactly for a directory and with `File: ` exactly for a file. |
| Entries.ParseLine | dirdiff/main.cpp:38-41 | A line that parses is the `operator<<` text of the parsed kind and relative path. |
| Entries.LineRoundTrip | dirdiff/main.cpp:38-41 | Parsing the `operator<<` line of an entry gives back its kind and relative path. |
| Arguments.SetDir | dirdiff/main.cpp:70-81 | A flag sets exactly its own directory and leaves the other two alone. |
| Arguments.ParseArguments | dirdiff/main.cpp:59-86 | The argument loop, corrected as in the finding below: it rejects a flag in the last position as MissingValue, where the program reads `argv[argc]`. Its result equals `Parse`: WrongCount unless there are exactly 7 entries, otherwise the directories the flags name. On every other command line it agrees with the loop as written (`Arguments.ScanAgreesWithAsWritten`). |
| Arguments.NullReadExample | dirdiff/main.cpp:68-81 | With a flag as `argv[6]` the loop as written reads `argv[7]`; the corrected parse rejects that command line. |
| Arguments.ScanAgreesWithAsWritten | dirdiff/main.cpp:68-86 | The corrected loop fails exactly on the command lines where the loop as written reads past `argv`. Otherwise both give the same directories. |
| Arguments.TrailingFlagRejected | dirdiff/main.cpp:68-81 | For every 7-entry command line on which the loop as written reads `argv[7]`, the last argument is a flag and the command line is rejected as MissingValue naming it. |
| Arguments.AnyOrder | dirdiff/main.cpp:68-86 | The three flags in any order give each directory the value after its flag. |
| Arguments.SetDirOverwrites | dirdiff/main.cpp:70-81 | Setting a flag's directory twice keeps only the later value. |
| Arguments.RepeatedFlagKeepsLast | dirdiff/main.cpp:68-86 | On any command line, a value recorded for a flag before the scan reaches a later occurrence of it has no effect on the result. If the flag does not occur after that position, its directory is the value that follows it there. |
| Arguments.UnknownArgumentSkipped | dirdiff/main.cpp:82-85 | On any command line, an argument in flag position that is not a flag is skipped: the scan goes on from the next argument with nothing changed. |
| Arguments.AbsentFlagKept | dirdiff/main.cpp:68-86 | A flag that does not occur from some position on keeps, in an accepted result, the directory it had there. |
| Arguments.AbsentFlagLeavesEmpty | dirdiff/main.cpp:64-86 | On any accepted command line where a flag never occurs, its directory is empty. |
| Enumeration.ChildData | dirdiff/main.cpp:233-242 | A child's path is the directory, a backslash, then the child's name, and it still starts with the walk root. |
| Enumeration.EntryList.PushBack | dirdiff/main.cpp:235 | `push_back` appends exactly one entry at the end. |
| Enumeration.FindFile | dirdiff/main.cpp:218-251 | The walk only appends: the old contents are kept and `Walk` follows them. A directory that cannot be listed appends nothing. |
| Enumeration.WalkShape | dirdiff/main.cpp:218-251 | Every entry lies below the directory walked and comes from the walk root. No relative path occurs twice. The order is pre-order: every entry comes before every entry that lies below it. |
| Enumeration.WalkFromRoot | dirdiff/main.cpp:229-242 | From the root, every path is the root plus a relative path starting with a backslash. No entry is `.` or `..`. Relative paths are unique. The order is pre-order. |
| SetAlgebra.Sort | dirdiff/main.cpp:97 | Sorting permutes the list: the same entries, as a multiset. |
| SetAlgebra.SortSorted | dirdiff/main.cpp:97 | The sorted list is in non-decreasing order of relative path and is a permutation of the input. |
| SetAlgebra.SortIncreasing | dirdiff/main.cpp:106 | A list with unique relative paths sorts into a strictly increasing list with the same relative paths. |
| SetAlgebra.SetIntersection | dirdiff/main.cpp:111-114 | The merge loop of `std::set_intersection` on two increasing lists returns the entries of the first whose relative path is in the second, in order. |
| SetAlgebra.SetDifference | dirdiff/main.cpp:169-172 | The merge loop of `std::set_difference` on two increasing lists returns the entries of the first whose relative path is not in the second, in order. |
| SetAlgebra.SelectMembers | dirdiff/main.cpp:111-114 | An entry is in the selection if and only if it is in the list and its relative path is on the chosen side of the key set. |
| SetAlgebra.SelectSubsequence | dirdiff/main.cpp:111-114 | A selection keeps the order of the list it selects from. |
| SetAlgebra.SelectPartition | dirdiff/main.cpp:111-114 | Intersection and difference together hold every target entry exactly once. |
| SetAlgebra.SelectKeys | dirdiff/main.cpp:169-172 | The keys of the two sides are the keys of the list inside the key set and outside it. |
| SetAlgebra.SelectIncreasing | dirdiff/main.cpp:179-182 | A selection from an increasing list is increasing. |
| Classification.FindModified | dirdiff/main.cpp:117-130 | The loop over the intersection returns `Modified`: in order, the entries that are files whose target hash differs from their source hash. |
| Classification.ModifiedMembers | dirdiff/main.cpp:118-129 | An entry is modified if and only if it is in the intersection, is not a directory, and its two hashes differ. |
| Classification.ModifiedSubsequence | dirdiff/main.cpp:117-130 | The modified list keeps the intersection's order. |
| Classification.ModifiedIncreasing | dirdiff/main.cpp:117-130 | The modified list of an increasing intersection is increasing. |
| Classification.UnreadableIsUnmodified | dirdiff/main.cpp:121-125 | A file that hashes to `""` on both sides is not modified. |
| FileSystem.FileSystem.PathFileExists | dirdiff/main.cpp:141 | Defines the host query: the answer is true exactly when the path is present. |
| FileSystem.FileSystem.CreateDirectory | dirdiff/main.cpp:143 | Creation succeeds exactly when the path is absent and the host does not refuse it. On success the directory becomes present and is logged; on failure nothing changes. |
| FileSystem.FileSystem.CopyFile | dirdiff/main.cpp:157 | The copy succeeds exactly when the host allows it. It then adds the copy and the destination; on failure nothing changes. |
| FileSystem.FileSystem.OpenForWrite | dirdiff/main.cpp:186-187 | The open succeeds exactly when the host allows it. It then leaves the file present and empty; on failure nothing changes. |
| FileSystem.FileSystem.WriteLine | dirdiff/main.cpp:195 | One line is appended to the open file; nothing else changes. |
| FileSystem.AfterOpen | dirdiff/main.cpp:186 | Defines the effect of opening for output: the file is truncated and nothing else changes. |
| Copying.CopyProcedure | dirdiff/main.cpp:133-164 | The directory loop and the copy end in the state and fault that `CopyEntry` gives. |
| Copying.CopyEach | dirdiff/main.cpp:165 | Applying the procedure to each entry in turn ends in the state and fault that `CopyAll` gives: it stops at the first fault. |
| Copying.CopiesOf | dirdiff/main.cpp:155-157 | Each entry is copied from the target root to the output root at its relative path, one copy per entry, in order. |
| Copying.AncestorsShape | dirdiff/main.cpp:137-152 | The directories asked for are prefixes of the output path that end in a backslash. They come shortest first. Every backslash of the relative path yields one. |
| Copying.LastComponentNotCreated | dirdiff/main.cpp:137-152 | An entry's own path is never created as a directory unless it ends in a backslash. |
| Copying.EnsureAncestorsFrame | dirdiff/main.cpp:138-152 | The directory loop neither copies nor writes a file. |
| Copying.EnsureAncestorsSuccess | dirdiff/main.cpp:138-152 | A successful directory loop creates exactly the missing ancestors, in order. Afterwards every ancestor exists. |
| Copying.EnsureAncestorsFault | dirdiff/main.cpp:141-149 | The loop succeeds if and only if the host creates every missing ancestor. A failure names a missing ancestor that the host refused. |
| Copying.CopyEntryEffect | dirdiff/main.cpp:133-164 | The procedure succeeds if and only if every missing ancestor is created and the copy is allowed. On success it adds exactly that copy; on failure it adds none. It never writes a file. |
| Copying.CopyAllEffect | dirdiff/main.cpp:165 | A completed pass copies every entry in order. An aborted pass keeps the copies of a proper prefix of the entries. No file is written either way. |
| Copying.CopiesAvoid | dirdiff/main.cpp:155-157 | No copy of these entries lands on the output path of a relative path outside them. |
| Copying.CopyAllOnlyEntries | dirdiff/main.cpp:165 | A pass only copies onto its own entries' output paths. |
| Sync.ManifestLines | dirdiff/main.cpp:194-196 | One manifest line per deleted entry. |
| Sync.WriteManifest | dirdiff/main.cpp:194-196 | The loop appends the `operator<<` lines of the deleted entries, in order, to the manifest. |
| Sync.ListTree | dirdiff/main.cpp:93-97 | Walking a tree into a fresh list and sorting it gives the tree's `Inventory`. |
| Sync.InventoryIncreasing | dirdiff/main.cpp:93-106 | A sorted inventory is strictly increasing by relative path. |
| Sync.Run | dirdiff/main.cpp:47-216 | `main` ends with the exit code and output state that `RunSpec` gives, whatever the trees, hashes and host. |
| Sync.ManifestRoundTrip | dirdiff/main.cpp:194-196 | Line `i` of the manifest reads back as the kind and relative path of deleted entry `i`. |
| Sync.PlanSorted | dirdiff/main.cpp:97-182 | Both inventories and every list derived from them are strictly increasing by relative path. |
| Sync.PlanPartition | dirdiff/main.cpp:111-182 | Intersection and added split the target inventory, as a multiset. The intersection's keys are those in both trees. The added keys are target-only; the deleted keys are source-only. An entry is modified if and only if it is an intersection file whose hashes differ. |
| Sync.RejectedCommandLine | dirdiff/main.cpp:59-63 | A rejected command line returns -1 and touches nothing. |
| Sync.CopyFailureSkipsRest | dirdiff/main.cpp:165-175 | A fault while copying modified entries ends the run with -1. No added entry is copied and the manifest is not opened. |
| Sync.FailedRunWritesNoManifest | dirdiff/main.cpp:186-215 | The exit code is 0 or -1. A run returning -1 has not opened or written the manifest: every text file is as it was. Copies made before the fault stay (see `Copying.CopyAllEffect`). |
| Sync.SuccessfulRun | dirdiff/main.cpp:165-204 | A run returning 0 has copied every modified entry, then every added entry, in order. The manifest then holds exactly one line per deleted entry. |
| Sync.ExecuteCopiesOnlyPlanned | dirdiff/main.cpp:165-175 | Every copy the run makes lands on the output path of a modified or an added entry. |
| Sync.DeletedNeverCopied | dirdiff/main.cpp:165-182 | No copy lands on the output path of a deleted entry. |
| Sync.RunNeverCopiesDeleted | dirdiff/main.cpp:47-216 | In a whole run, whatever the trees and the host, no deleted entry is copied. |

## Left out

- Logging: `LOG`, the log-file name built from `CTime` and the messages it writes are left out. They produce no result the run depends on.
- `system("pause")` before the successful return is left out. It waits for a key press and changes nothing.
- `getFileMD5` and the MD5 algorithm in `md5file.cpp` are a function parameter. The model keeps only that a hash depends on the path alone during one run. It has no notion of an unreadable file: `""` is one possible value of `md5`, and `Classification.UnreadableIsUnmodified` states what follows when both sides hash to it.
- The Win32 listing calls (`FindFirstFileA`, `FindNextFileA`, `FindClose`) are replaced by the `Node` tree. Handle management and attribute bits are not modelled.
- `Enumeration.FindFile` requires the walk root to be a prefix of the directory. Every call in the program satisfies this. The `npos` case of the `FindData` constructor, which this excludes, is not modelled.
- `Sync.Run` requires both trees to be well formed: the names in one directory are distinct and contain no backslash, as a file system guarantees. Without this, duplicate relative paths would break the sorted-set preconditions of the merge loops.
- `SetAlgebra.SetIntersection` and `SetAlgebra.SetDifference` require strictly increasing inputs. `std::set_*` only requires sorted input; with unique relative paths the two coincide, and `Sync.InventoryIncreasing` proves that the inventories are strictly increasing.
- `SetAlgebra.Sort`: `std::list::sort` is library code. It is modelled as a stable insertion sort, and only its result (sorted, a permutation) is used.
- The host calls (`FileSystem.AfterCreate`, `FileSystem.AfterCopy`, `FileSystem.AfterOpen`, `FileSystem.AfterWriteLine` and the methods of `FileSystem.FileSystem`) are definitions of what each call does to the output side, as the Win32 and iostream documentation describe it. Their contracts spell those effects out; nothing about the host is proved.
- Writes to the manifest after it is opened, and `fout.close()`, are assumed to succeed. The program does not check them.
- Exceptions other than the program's own `std::runtime_error` (the `catch (...)` branch, such as an allocation failure) are not modelled.
- Paths are compared as exact strings. The host's case-insensitive paths and path normalisation are not modelled.
- Running the tool twice is not shown to be idempotent. That would need a model of file contents after copying, which `md5` as an opaque parameter does not give.

## Findings

| source | as written | input that shows it | evidently intended | confidence | as-written member | corrected member |
|---|---|---|---|---|---|---|
| dirdiff/main.cpp:68-81 | After a recognised flag the loop reads `argv[++i]` without checking that `i` is still below `argc`. | `dirdiff -s src -t dst out -o`: `-o` is `argv[6]`, so `argv[7]` (the null pointer) becomes a `std::string`, which is undefined behaviour. | A flag with no value is rejected as invalid parameters, with exit code -1. | high; not executed | Arguments.ScanAsWritten, Arguments.NullReadExample | Arguments.Scan, proved by Arguments.ScanAgreesWithAsWritten and Arguments.TrailingFlagRejected |
