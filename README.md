# X-Plane navigation-data installer: a Dafny model of its distribution core

The installer is a drag-and-drop script. A user drops a delivered archive
(`.zip`, `.rar` or `.7z`) on it. The script has Bandizip extract the archive
into a scratch directory. It walks that directory for nested `.zip` files and
looks up each one's base name in a rule table (sub-package name to destination
directory). Every matched nested archive is extracted into a second scratch
directory. One wrapping top-level folder is unwrapped, and the contents are
merged into the rule's destination, overwriting files of the same name. At the
end the script reports the sorted, distinct names it found when nothing
matched, or deletes the dropped archive when something matched and auto-delete
is on.

The model has six modules:

- `Tree` (tree.dfy): the filesystem as one value, `Node = File(bytes) | Dir(map)`.
  It gives lookup (`Get`) and store (`Put`, which creates missing directories
  the way os.makedirs does). `RemoveFile` is os.remove with its failure
  swallowed. `SplitPath` turns a configured path string into components.
- `Names` (names.dfy): ASCII lower-casing, the `.zip` test, `os.path.splitext`
  on a file name (`BaseName`), and the drag-and-drop extension filter.
- `Report` (report.dfy): Python's string order and `sorted(list(set(...)))`.
- `MergeSpec` (merge.dfy): `Merge`, the tree that merge_copy produces, and
  `MergeInto`, the same on the whole filesystem. The lemmas here cover
  overwrite, preservation, directory creation and idempotence.
- `Distribution` (distribution.dfy): the loop of process_archive as a function
  (`Step`, `Distribute`), the single-folder unwrap (`EffectiveRoot`), the whole
  call (`Process`) and the drag-and-drop loop (`RunAll`), with their lemmas.
- `Installer` (installer.dfy): class `FileSystem`, whose field `root` is the
  filesystem. Its methods `MergeCopy`, `ProcessArchive` and `DragAndDrop`
  update `root` in place with the source's loops. Each is proved equal to the
  function above.
- `Scenarios` (scenarios.dfy): two concrete end-to-end runs, one wrapped
  sub-package installed and one unmatched sub-package reported.

Things the model takes as parameters rather than modelling:

- The archiver is `Env.extract`: from the bytes of an archive to the entries it
  writes into a fresh, empty directory.
- The order of os.walk is `Env.walk`: from the first staging tree to the
  sequence of files the loop visits, each with its name and bytes.
- Whether Bandizip exists is `PathExists`: `os.path.exists` on the configured path in `root`.
  An empty configured path never exists, so the call stops there.

Three behaviours of the code worth knowing:

- Rule lookup goes through configparser. Configparser lower-cases option names
  when it stores them and when it looks them up. So `NavDataXP12.zip` matches a
  rule written `NavDataXP12` or `navdataxp12`. The matching is not exact-case.
- `match_count` goes up once per matched nested archive file. Two files with the
  same base name count twice. It is not the number of distinct matched names.
- An error while merging one sub-package is not isolated. No `try` surrounds the
  merge, so an exception would end the whole run. The model has no failing
  writes, so this path does not arise (see Left out).

## Model

| member | source | states |
|---|---|---|
| `Installer.FileSystem.MergeCopy` | main.py:114-123 | The loop over `listdir(src)` (recursing into directories, copying files) leaves the filesystem equal to `MergeInto(old root, dst, src)`. The destination is created first when it is not a directory. |
| `MergeSpec.MergeFiles` | main.py:117-123 | Every regular file of the merged tree is the source's wherever the source reaches that path, and the destination's elsewhere. So each source file lands at the same relative path with the same content, and no other file appears. |
| `MergeSpec.MergeKeeps` | main.py:115-123 | An entry (file or whole subtree) of the destination at a path the source does not name is unchanged. The merge never removes anything. |
| `MergeSpec.MergeCreatesDirs` | main.py:115-116 | Every directory of the source exists as a directory in the result, whether the destination had it or not. |
| `MergeSpec.MergeIdempotent` | main.py:114-123 | Merging the same source a second time gives the tree that one merge gives. |
| `MergeSpec.MergeIntoFiles` | main.py:114-123 | On the whole filesystem, each file under `dst + q` is the source's file at `q` where the source reaches `q`, and the old file otherwise. |
| `MergeSpec.MergeIntoOutside` | main.py:114-123 | Paths that are neither above nor below the destination are unaffected by merge_copy. |
| `MergeSpec.MergeIntoMakesDirs` | main.py:115-116 | After merge_copy the destination and every directory above it exist as directories (os.makedirs). |
| `MergeSpec.MergeIntoIdempotent` | main.py:114-123 | Running merge_copy twice with the same source leaves the filesystem as one run does. |
| `Tree.PutMakesAncestors` | main.py:115-116 | Storing an entry at a path creates every missing directory above it. |
| `Tree.RemoveFileEffect` | main.py:168-171 | os.remove with its failure swallowed: the regular file at the path is gone if there was one. Every path that is not a strict ancestor keeps what it had. Nothing changes when the path is not a regular file. |
| `Installer.FileSystem.RemoveQuietly` | main.py:168-171 | The filesystem afterwards is `RemoveFile(old root, path)`. |
| `Names.ZipNameCases` | main.py:145 | A walked file counts as a nested archive exactly when its last four characters are a dot followed by `z`, `i`, `p` in either case. |
| `Names.BaseNameOfZip` | main.py:145-146 | For a stem that is not all dots and `.zip` in any case, `stem + ext` is recognised and its base name is `stem`. |
| `Names.BaseNameOfZipName` | main.py:145-146 | For every recognised name, the base name is the name without its last four characters. The exception is when only dots precede `.zip`: then splitext keeps the whole name. |
| `Names.AcceptedArchiveCases` | main.py:180 | An argument is processed exactly when it ends in `.zip`, `.rar` or `.7z`, ignoring case, character by character. |
| `Distribution.LookupIgnoresCase` | main.py:148 | A name and its lower-cased form find the same rule, as configparser folds option names. |
| `Distribution.EffectiveRoot` | main.py:154-157 | The merge source is a directory. It is the sole entry of the staging area when that area has exactly one entry and it is a directory. Otherwise it is the staging area itself. |
| `Distribution.DistributeCounts` | main.py:143-149 | After the loop, `found_zips` is the base name of every walked `.zip` in walk order, matched or not. `match_count` is the number of those with a rule, counted once per file. |
| `Distribution.NoMatchNoWrite` | main.py:143-158 | A walk in which no name has a rule leaves the filesystem unchanged. |
| `Distribution.LastMatchWins` | main.py:151-159 | When the last walked file is a matched nested archive, every file of its unwrapped contents is at the rule's destination afterwards with that content. |
| `Distribution.ProcessOutcome` | main.py:126-171 | Without the archiver, an empty configured path included, the call writes nothing and reports that. With no match it writes nothing and reports the strictly sorted list of exactly the distinct walked base names. Otherwise it reports the number of matches, which is positive. |
| `Distribution.ProcessDeletes` | main.py:161-171 | The dropped archive is removed only after a run with matches and auto-delete on. Then no regular file is left at its path and every other path is as the distribution left it. In all other cases the archive is kept. |
| `Installer.FileSystem.ProcessArchive` | main.py:126-172 | The early return, the walk loop with its counter and list, the per-match extract, unwrap and merge, and the end-of-run decision leave the filesystem and outcome equal to `Process(old root, ...)`. |
| `Report.SortedSet` | main.py:163 | The report is strictly increasing in Python's string order and holds exactly the names found. |
| `Report.SortedUnique` | main.py:163 | Only one strictly sorted list has a given set of elements, so the report is the `sorted(set(...))` of the names. |
| `Report.ReportIgnoresOrder` | main.py:163 | The report depends only on which names were found, not on their order or repetitions. |
| `Distribution.AcceptedFilters` | main.py:179-180 | The processed arguments are exactly those of the command line that pass the extension filter. |
| `Distribution.OnlyAcceptedProcessed` | main.py:179-181 | Rejected arguments have no effect. The run equals the run over the accepted arguments, with one outcome per accepted argument. |
| `Installer.FileSystem.DragAndDrop` | main.py:177-181 | The loop over the arguments leaves the filesystem and the outcomes equal to `RunAll(old root, args, ...)`. |
| `Scenarios.WrappedSubPackageInstalled` | main.py:143-171 | A rule for `NavDataXP12` and a dropped archive holding `NavDataXP12.zip`, whose contents are the single folder `data/` with `file.dat`. Then `file.dat` lands directly in the destination, one match is reported, and with auto-delete on the dropped archive is gone. |
| `Scenarios.UnmatchedSubPackageReported` | main.py:161-164 | A rule for `fenix` and a dropped archive holding only `OTHER.zip`. The call reports `["OTHER"]` and the filesystem is unchanged. |

## Left out

- Configuration load and save, the legacy `PATHS` migration and the defaults (main.py:13-37): these are file I/O. The model takes the parsed settings as its `Config` value. Its rule table is the `RULES` section as configparser presents it, so options inherited from `DEFAULT` are in it.
- `getboolean` on `AutoDeleteArchive` and configparser's `%` interpolation of the archiver path and rule values (main.py:127-128, 158): these are library parsing. The model takes the boolean and the raw path string.
- `interactive_menu` (main.py:64-110) and `ensure_local_shortcut` (main.py:41-60): console I/O, `sleep`, and Windows COM calls.
- Bandizip invocation through `subprocess.run` (main.py:138, 152): this is `Env.extract`. Its exit status is ignored by the code. A path that is not a regular file extracts to nothing.
- Which files os.walk yields, and in what order (main.py:143-144): this is `Env.walk`. The model does not require the walk to list exactly the regular files of the first staging tree.
- Temporary directories (main.py:136, 151): the staging areas are values outside `root`. So they never appear in the filesystem, and their cleanup has no counterpart.
- Messages, `input` prompts and `sleep` (main.py:132-133, 137, 150, 159, 162-166, 172): the model returns an `Outcome` instead.
- Metadata copied by `shutil.copy2` (main.py:123): only file content is modelled.
- `Installer.FileSystem.MergeCopy`: a clash between a file and a directory resolves in favour of the source. The code raises in that case, or copies the file into the directory. For the same reason, the destination is created when it is not a directory, whereas the code checks `os.path.exists`.
- `Tree.Put`: a file standing where a directory must be created is replaced, whereas os.makedirs raises.
- Failing writes (permission denied, disk full) and the exception that would end the run: every write in the model succeeds.
- `Names.Lower`: folds only ASCII letters, whereas Python's `str.lower` is Unicode-wide.
- `Distribution.Step`: a rule whose destination is the empty string names the filesystem root in the model, so the sub-package is merged over the root. In the code, `os.makedirs("")` raises and the run ends.
- `Tree.SplitPath`: splits at `\` and `/` and drops empty components. Relative paths, `.` and `..`, and the case-insensitivity of Windows file names are not modelled.
- Symbolic links, and an archiver path that exists but cannot be run, are not modelled.
