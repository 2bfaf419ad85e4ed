# bigfiles — a verified model of the core

`bigfiles` walks a directory tree and prints the K largest files (or, with
`--folder-size`, the K largest folders), largest first, with sizes in whole
megabytes. Its core is one Rust file, `src/main.rs`:

- `Entry`: a name and a size in bytes;
- `Tracker`: a fixed array of K slots, filled with empty placeholders at
  start. It caches the smallest slot (`min`) and where that slot is
  (`min_pos`). `report` overwrites the cached minimum slot whenever the new
  size is at least `min`, then rescans the array with `<=`, so the cached
  position is the LAST slot holding the minimum. `print` sorts the slots by
  size, descending and stably, and prints name and `to_mb(size)` per slot;
- `to_mb`: integer division by `MB_FACTOR` = 1024 * 1024;
- `list`: a recursive walk. Each readable directory's entries are visited in
  the order the directory yields them. A file is reported with its path
  (file mode) and its length is added to the folder's total. A
  subdirectory is walked recursively. A directory that cannot be read
  reports nothing. In folder mode the folder reports itself after its
  children, with its total.

The Dafny model has these modules:

- `Sizes` (`sizes.dfy`): `u64`, `u8`, `MB_FACTOR`, `ToMb`, and the
  wrap-around addition a release build performs on `u64`.
- `Entries` (`entries.dfy`): `Entry`, the descending-order predicate, and
  `WithSize`, the sub-sequence of entries of one size (an equal-size group,
  which a stable sort must keep in order).
- `Sorting` (`sorting.dfy`): the stable descending sort. It is specified by
  a functional insertion sort. The sort is proved to be sorted, a
  permutation and stable, and proved to be the only sequence with those
  properties. It is implemented in place on an `array`.
- `Tracking` (`tracker.dfy`): the `Tracker` class (fields `list`, `min`,
  `minPos`). Each of its methods is proved against a function on values
  (`Step`, `ReportAll`, `SortBySizeDesc`, `RowsOf`). The lemmas show that
  the slots always hold a choice of the K largest entries seen, counting the
  K placeholders.
- `Walker` (`walker.dfy`): the directory tree as a datatype, and the walk as
  a recursive method that drives a `Tracker`. It is proved against
  `WalkReports`, the sequence of reports in walk order, which is
  characterised in both directions by the paths reaching each tracked node.
- `Scan` (`scan.dfy`): what `main` composes: a tracker of `track` slots, one
  walk, then `print`.
- `Scenarios` (`scenarios.dfy`): concrete walks and tie-breaks, worked out
  on the functions above.

A folder's size is the sum of the lengths of the files directly inside it.
Subfolders are not included, because the recursive call returns nothing to
add. The model follows the code here: `DirectTotal` and
`FolderReportedLast`.

The tree datatype allows two entries of one directory to share a name, or a
name to contain the separator, which a file system does not. The walk
itself handles such trees, and `WalkReportsExactly` and the report count
hold for them. That each tracked node is reported exactly once
(`WalkReportsDistinct`, `ReportedOnce`) is proved for trees satisfying
`WellFormed`: distinct names in each directory, no separator in a name.

## Model

| member | source | states |
|---|---|---|
| Sizes.ToMb | src/main.rs:71-73 | the result is the number of whole megabytes: `mb * MB_FACTOR <= bytes < (mb + 1) * MB_FACTOR` |
| Sizes.ToMbMonotonic | src/main.rs:71-73 | a larger byte count never gives fewer megabytes |
| Sizes.WrappingAdd | src/main.rs:91 | `u64` addition: the exact sum below 2^64, the sum minus 2^64 above it |
| Entries.WithSizeMember | src/main.rs:64 | the equal-size group `WithSize(s, v)`, by which stability of `sort_by` is stated, holds exactly the entries of `s` of size `v` |
| Sorting.Insert | src/main.rs:64 | one step of the stable sort: the sorted prefix grows by exactly one slot. What the step keeps is proved in the three lemmas below |
| Sorting.InsertPermutes | src/main.rs:64 | inserting into the sorted prefix adds exactly that entry (multiset) |
| Sorting.InsertSorted | src/main.rs:64 | inserting into a descending sequence keeps it descending |
| Sorting.InsertKeepsTies | src/main.rs:64 | the new entry goes after every earlier entry of equal size, so every size group is the old group plus, for its own size, the new entry at the end |
| Sorting.SortBySizeDesc | src/main.rs:64 | the order `sort_by` leaves the slots in has as many slots as before. That it is sorted, a permutation and stable is `SortBySizeDescCorrect` |
| Sorting.SortBySizeDescCorrect | src/main.rs:64 | the sort is descending by size, a permutation, and keeps every equal-size group in its original order (stable) |
| Sorting.StableSortUnique | src/main.rs:64 | any descending permutation that keeps every equal-size group in order is the sort's result, so the choice of stable algorithm cannot change what is printed |
| Sorting.SortInPlace | src/main.rs:64 | the array afterwards holds `SortBySizeDesc` of its old contents |
| Sorting.SinkLast | src/main.rs:64 | sinking element `i` into the sorted prefix `a[..i]` yields `Insert` of it and leaves the rest untouched |
| Tracking.LastMinUnique | src/main.rs:51-58 | a sequence has at most one last-minimum position |
| Tracking.LastMinIndex | src/main.rs:51-58 | the rescan's answer: a position holding the minimum size with no later position holding it |
| Tracking.Initial | src/main.rs:34-40 | K placeholder slots of size 0, with `min` 0 and `minPos` 0 |
| Tracking.Step | src/main.rs:42-61 | one report: a size below `min` changes nothing, otherwise the slot at `minPos` is overwritten and `min`/`minPos` name the last minimum of the new slots. The cached minimum stays correct |
| Tracking.ReportAll | src/main.rs:42-61 | a sequence of reports keeps the cache correct and the number of slots fixed |
| Tracking.ReportAllOne | src/main.rs:42-61 | reporting one entry is one `Step` |
| Tracking.ReportAllAppend | src/main.rs:42-61 | reporting `a` then `b` is reporting `a + b` |
| Tracking.RejectKeepsTopK | src/main.rs:43-45 | dropping an entry smaller than the minimum keeps the slots the K largest seen |
| Tracking.AcceptKeepsTopK | src/main.rs:47-50 | replacing the minimum with an entry at least as large keeps the slots the K largest seen |
| Tracking.StepKeepsTopK | src/main.rs:42-61 | each report keeps the slots a choice of the K largest entries seen |
| Tracking.ReportAllKeepsTopK | src/main.rs:42-61 | any sequence of reports keeps the slots a choice of the K largest entries seen |
| Tracking.ReportsKeepTopK | src/main.rs:34-61 | from the initial tracker, the slots hold K entries, each at least as large as every placeholder or report left out |
| Tracking.RowsOf | src/main.rs:65-67 | one row per slot, in order, with the slot's name and its size in megabytes |
| Tracking.PrintedRows | src/main.rs:63-68 | the printed entries are the slots, permuted stably, and the megabyte column never increases down the rows |
| Tracking.Tracker.constructor | src/main.rs:34-40 | a fresh array of `max_items` placeholders, `min` 0, `minPos` 0 |
| Tracking.Tracker.Report | src/main.rs:42-61 | the tracker moves to `Step` of its old state. A rejected size changes nothing. An accepted one overwrites exactly the old minimum slot and leaves `minPos` at the last minimum |
| Tracking.Tracker.Print | src/main.rs:63-68 | the array is sorted to `SortBySizeDesc` of its old contents, and the rows are `RowsOf` the sorted slots |
| Walker.ChildPath | src/main.rs:84 | a child's path is the parent's path, then the separator, then the child's name, each at its place |
| Walker.DirectTotal | src/main.rs:79-91 | `folder_size` is the exact sum of the direct files' lengths (`DirectSum`) modulo 2^64, and exactly that sum when it fits |
| Walker.WalkReports | src/main.rs:75-104 | the reports of `list`, in order: as many as the tree has tracked nodes (`TrackedCount`: files in file mode, readable directories in folder mode) |
| Walker.ChildrenReports | src/main.rs:80-95 | the reports of the loop over a directory's entries: as many as those entries hold tracked nodes |
| Walker.ChildReports | src/main.rs:82-93 | the reports for one entry: one for a file in file mode, a readable subdirectory's whole walk, none for an unreadable directory or an entry without metadata, counted by `ChildTrackedCount` |
| Walker.Walk | src/main.rs:75-104 | walking a directory moves the tracker by `ReportAll` of `WalkReports`, the reports of the walk in order |
| Walker.VisitEntry | src/main.rs:80-95 | visiting one entry reports its `ChildReports` and returns the file length it adds to the folder's total (0 for directories and entries without metadata) |
| Walker.WalkReportsExactly | src/main.rs:75-104 | an entry is reported exactly when some path of names leads through readable directories to a tracked node (a file in file mode, a readable directory in folder mode), the entry's name is that path joined with `/`, and its size is the file's length or the folder's direct total |
| Walker.WalkReportsBelow | src/main.rs:84-88 | every report of the walk from `path` names `path` itself or a path that starts with `path` and the separator |
| Walker.FolderReportedLast | src/main.rs:96-98 | in folder mode a readable folder's own report is the last one, carries its direct total, and every earlier report lies strictly below its path |
| Walker.WalkReportsDistinct | src/main.rs:75-104 | in a tree whose directories hold distinct names without a separator, no two reports carry the same path |
| Walker.ReportedOnce | src/main.rs:75-104 | in such a tree every tracked node's entry occurs exactly once among the reports |
| Scan.Scan | src/main.rs:106-115 | `main`'s composition prints `Result`: the rows of the sorted slots after reporting the whole walk |
| Scan.ScanResult | src/main.rs:106-115 | exactly `track` rows are printed, with megabytes never increasing, and the entries behind them are a choice of the `track` largest among the placeholders and all reports |
| Scenarios.TieBreak | src/main.rs:51-58 | with K = 2 and three equal sizes a, b, c, the slots end as [a, c]: ties replace the last-minimum slot |
| Scenarios.SampleTreeReports | src/main.rs:75-104 | the walk of root/{fileA 10 MB, sub/{fileB 20 MB}} reports [root/sub, root] in folder mode and [root/fileA, root/sub/fileB] in file mode |
| Scenarios.FolderModeSample | src/main.rs:96-98 | with one slot, folder mode keeps root/sub (20 MB) over root (10 MB, its direct file only) |
| Scenarios.FileModeSample | src/main.rs:63-68 | file mode prints root/sub/fileB = 20 then root/fileA = 10 |
| Scenarios.UnreadableSubdirectory | src/main.rs:100-102 | an unreadable subdirectory contributes no report and no size |
| Scenarios.MegabytesTruncate | src/main.rs:71-73 | 1 MiB plus one byte prints as 1 |
| Scenarios.EmptyDirectory | src/main.rs:34-40 | in file mode an empty folder prints three unnamed rows of 0 Mb when K = 3 (the placeholders) |
| Scenarios.EmptyDirectoryFolderMode | src/main.rs:96-98 | in folder mode the empty folder still reports itself with size 0, which is not below `min`, so it prints `.` = 0 followed by two placeholders when K = 3 |

## Left out

- Command-line parsing (`Options`, StructOpt) and `main`'s console output
  are not modelled. `main` becomes `Scan.Scan` with its options as
  parameters. The `threads` option is parsed but never used by the code.
- Timing (`Instant`) and all `println!` output are left out: the column
  padding, the " Mb" suffix and the error message for an unreadable path.
  `print` is modelled as the rows `(name, to_mb(size))` it would print.
- The file system is left out. `fs::read_dir` and `metadata` are replaced
  by the `Node` tree. Each directory's entry order is its `entries`
  sequence, an unreadable directory is `UnreadableDir`, and an entry whose
  metadata fails is `NoMetadata`. `path::MAIN_SEPARATOR` is the constant
  `'/'`.
- The panics in `list` are not modelled: `unwrap` on a failing directory
  entry, and on a name that is not valid UTF-8. The tree cannot express
  either case.
- Symbolic links are left out. `DirEntry::metadata` does not follow them,
  so the code treats a link as a file. The tree has no links, and so no
  cycles.
- Tracking.Tracker.Report: requires at least one slot. With `track` = 0 the
  source indexes an empty vector and panics on the first report, so
  `Scan.Scan` requires `track >= 1` or a walk that reports nothing.
- Sizes.WrappingAdd: models a release build, where `folder_size +=` wraps
  modulo 2^64. A debug build panics on overflow instead.
- Sorting.SortInPlace: the model uses insertion sort, not the standard
  library's stable merge sort. `Sorting.StableSortUnique` shows that every
  stable descending sort gives the same sequence.
- Walker.Walk: the model moves the body of the `for` loop into the
  mutually recursive `Walker.VisitEntry`. The order of reports and
  additions is the source's.
- `Entry`'s derived `Ord`/`PartialOrd` are left out: nothing in the core
  compares whole entries.
