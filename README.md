# file_monitor scan-and-diff core, modelled in Dafny

file_monitor watches a directory tree by polling it. A `FileScanner` keeps
two snapshot slots, each an ordered set of `File` records (a path and a
last-modification date, ordered by path only). One `read_and_compare` cycle
does four things:
- it switches to the other slot;
- it refills that slot with a walk of the tree, in which `read_path_recursive`
  schedules one `read_path` per directory;
- it compares the new snapshot with the one just left, reporting new records,
  deleted records and records whose date changed;
- a failed walk ends the cycle before anything is compared.

The model has six files:

- `wrappers.dfy`: `Option` and `Result`.
- `model.dfy`: `src/model.rs`. It covers paths and their lexicographic order,
  `File` with its `Ord`, `PartialOrd` and `PartialEq`, and `EventType` with its
  `Display`.
- `file_set.dfy`: `BTreeSet<File>` as a strictly path-ordered sequence, with
  its operations `insert`, `append`, `difference` and `intersection`. The
  intersection follows the standard library's choice of strategy, including
  the "search" strategy that yields the other set's records.
- `fs_tree.dfy`: the directory tree a walk sees, as an immutable value. It
  also holds reference definitions of what one directory read and what a whole
  walk collect, when a walk aborts, and how many directories it reads.
- `diff.dfy`: the comparison, both as written and corrected, with the
  lemmas about it.
- `file_scanner.dfy`: the class `FileScanner`, with fields `currBuff` and
  `buff`, and its methods. The walk is an imperative worklist loop, and each
  directory read is a loop over its entries.

The walk is proved against the reference definitions. It succeeds exactly when
no directory reached is unreadable and no file read lacks a date. On success
the slot holds one record per path collected, and every record in it belongs
to the tree. In a tree whose directories never repeat a name, that means
exactly the tree's records.

The scanner's comparison is the one the code performs (`DiffAsWritten`). Its
new and deleted records are exact. Its modified pairs are either exactly the
right ones or none, and always the right ones when neither snapshot is at most
a sixteenth of the other. The corrected comparison `DiffSnapshots` is proved to
be exact:
- a record is new exactly when its path is only in the current snapshot;
- a record is deleted exactly when its path is only in the previous snapshot;
- a pair is modified exactly when it holds the previous and the current record
  of one path and their dates differ.

### Walk failures

A failed `read_dir` returns an error from `read_path`, and
`read_path_recursive` unwraps it (`src/file_scanner.rs:97`), so the cycle
panics. A failed `md.modified()` is unwrapped too (`src/file_scanner.rs:144`).
Both conditions end the walk with a `Failure`:
- `CannotOpen`: a directory that cannot be opened;
- `NoModTime`: a file whose metadata has no modification date.

## Model

| member | source | states |
|---|---|---|
| Model.ComparePaths | src/model.rs:12-14 | the path order reports Equal exactly for equal paths |
| Model.ComparePathsReverse | src/model.rs:12-14 | swapping the operands reverses the path order |
| Model.ComparePathsTransitive | src/model.rs:12-14 | the path order is transitive |
| Model.Cmp | src/model.rs:12-21 | `File::cmp` compares paths only: Equal exactly when the paths are equal, whatever the dates |
| Model.CmpReverse | src/model.rs:12-21 | `File::cmp` is antisymmetric |
| Model.CmpTransitive | src/model.rs:12-21 | `File::cmp` is transitive |
| Model.PartialCmp | src/model.rs:23-27 | `partial_cmp` always returns `Some`, and reports Equal exactly for records with the same path |
| Model.PartialCmpIsTotalOrder | src/model.rs:23-27 | `partial_cmp` is always `Some`, antisymmetric and transitive, and Equal exactly on equal paths |
| Model.Eq | src/model.rs:29-33 | `File::eq` holds exactly for identical records (path and date) |
| Model.EqRefinesCmp | src/model.rs:12-33 | equal records compare Equal; same path with a different date compares Equal but is not `eq` |
| Model.Display | src/model.rs:42-46 | each event type displays as its three-letter variant name |
| Model.DisplayInjective | src/model.rs:35-46 | distinct event types display differently |
| FileSet.SortedExtensional | src/file_scanner.rs:20 | two ordered sets with the same records are the same set |
| FileSet.SamePathsAligned | src/file_scanner.rs:73-76 | two ordered sets with the same paths have equal lengths and equal paths position by position |
| FileSet.Insert | src/file_scanner.rs:144 | `BTreeSet::insert` keeps the set ordered; it adds the record exactly when its path is absent and otherwise keeps the existing record |
| FileSet.Append | src/file_scanner.rs:102 | `BTreeSet::append` keeps the set ordered; the result holds other's records plus self's records whose path other lacks |
| FileSet.AppendPaths | src/file_scanner.rs:102 | the paths after `append` are the union of both sets' paths |
| FileSet.Difference | src/file_scanner.rs:62 | `difference` yields, in order, exactly self's records whose path other lacks |
| FileSet.Shared | src/file_scanner.rs:73-74 | one side of a join on paths: exactly a's records whose path b has, in order; its paths are the common paths |
| FileSet.Intersection | src/file_scanner.rs:73-74 | `intersection` visits the common paths in order; its records are self's, except that they are other's when other is at most a sixteenth of self's size and the two ranges overlap without meeting at an end |
| FileSet.DisjointRanges | src/file_scanner.rs:73-74 | sets with disjoint ranges share nothing (the strategy that yields nothing) |
| FileSet.TouchingAtMin | src/file_scanner.rs:73-74 | when self's least path is other's greatest, that record is the whole intersection |
| FileSet.TouchingAtMax | src/file_scanner.rs:73-74 | when self's greatest path is other's least, that record is the whole intersection |
| FileSet.RepresentsExactly | src/file_scanner.rs:92-103 | a slot holding one record per path of a record set without repeated paths holds exactly that set |
| FileSet.RepresentsUnique | src/file_scanner.rs:92-103 | two slots representing the same record set without repeated paths are equal, so the walk's outcome does not depend on the order of the reads |
| FsTree.DirectConcat | src/file_scanner.rs:116-155 | what a directory read collects from a listing splits over any division of the listing |
| FsTree.DirectSnoc | src/file_scanner.rs:116-155 | one more entry adds exactly that entry's subdirectory, record or failure |
| FsTree.EntryPolicy | src/file_scanner.rs:129-154 | with distinct names, an entry is recorded (with its date) exactly when it is a regular file whose metadata and date were read, and scheduled exactly when it is a directory; links, special files and entries whose type or metadata failed appear in neither |
| FsTree.TasksConcat | src/file_scanner.rs:91-103 | the records, failures and reads of a worklist split over any division of it |
| FsTree.EntriesDecomposeFiles | src/file_scanner.rs:96-103 | the records of a directory's subtree are its own files plus those of the subdirectories it schedules |
| FsTree.EntriesDecomposeFails | src/file_scanner.rs:96-103 | a subtree aborts a walk exactly when its own read or a scheduled subdirectory's does |
| FsTree.EntriesDecomposeSize | src/file_scanner.rs:96-103 | the directories below a listing are those of the subdirectories it schedules |
| FsTree.TreeDecompose | src/file_scanner.rs:96-103 | reading a directory and scheduling its children accounts for its whole subtree and leaves one read fewer |
| FsTree.TreeFilesUnder | src/file_scanner.rs:139-144 | every record collected below the directory at p lies strictly under p |
| FsTree.WellFormedUniquePaths | src/file_scanner.rs:90-103 | in a tree whose directories never repeat a name, no two records collected by a walk share a path |
| Diff.Modified | src/file_scanner.rs:76-85 | the zip and filter: every reported pair has one path and two different dates, and there are no more pairs than either iterator holds |
| Diff.ModifiedMembers | src/file_scanner.rs:76-85 | the zip reports a pair exactly when both iterators hold it at the same position and it has one path and two dates |
| Diff.ModifiedSelf | src/file_scanner.rs:76-85 | zipping an iterator with itself reports nothing |
| Diff.DiffAsWritten | src/file_scanner.rs:59-85 | the comparison as written: new records are exactly the current records whose path the previous snapshot lacks, deleted ones the reverse, and every modified pair has one path and two dates |
| Diff.DiffSnapshots | src/file_scanner.rs:59-85 | the corrected comparison: the same new and deleted records, and modified pairs of one path with two dates, taken from the explicit join on paths |
| Diff.IntersectionsAligned | src/file_scanner.rs:73-76 | both intersections as written visit the common paths in the same order, so the zip pairs equal paths and misses none |
| Diff.SharedAligned | src/file_scanner.rs:73-76 | the corrected iterators hold, position by position, the previous and the current record of each common path |
| Diff.CreatedDeletedExact | src/file_scanner.rs:59-70 | a record is new exactly when its path is only in the current snapshot, and deleted exactly when its path is only in the previous one; both come out ordered |
| Diff.ModifiedExact | src/file_scanner.rs:71-85 | a pair is reported modified exactly when it holds the previous and the current record of one path and their dates differ |
| Diff.UnchangedReportsNothing | src/file_scanner.rs:59-85 | comparing two identical snapshots reports nothing |
| Diff.AsWrittenModifiedAllOrNothing | src/file_scanner.rs:62-85 | as written, the new and deleted records are right, and the modified pairs are either all the right ones or none |
| Diff.AsWrittenRightForComparableSizes | src/file_scanner.rs:73-85 | as written, the comparison is right when neither snapshot is at most a sixteenth of the other |
| Diff.SearchStrategyTaken | src/file_scanner.rs:73-74 | with a .. p before and only f now, both intersections yield the current record |
| Diff.CorrectedJoin | src/file_scanner.rs:73-74 | on the same snapshots the corrected join pairs f's old record with its new one |
| Diff.AsWrittenMissesModification | src/file_scanner.rs:73-85 | on the same snapshots the comparison as written reports no modification, while the corrected one reports f |
| Scanner.FileScanner.constructor | src/file_scanner.rs:26-34 | `new` starts with slot 0 current and both slots empty |
| Scanner.FileScanner.ReadAndCompare | src/file_scanner.rs:53-87 | flips the current slot and leaves the previous slot unchanged. It succeeds exactly when the walk does; on success the new slot represents the tree's records and the result is the comparison as written of the two slots. Every record in the new slot belongs to the tree |
| Scanner.FileScanner.Compare | src/file_scanner.rs:59-85 | the comparison step computes the comparison as written, through both `intersection` calls. Its new and deleted records equal the corrected ones; its modified pairs are the corrected ones or none, and always the corrected ones when neither snapshot is at most a sixteenth of the other |
| Scanner.FileScanner.ZipModified | src/file_scanner.rs:76-85 | the zip loop keeps exactly the aligned pairs with one path and two dates, in order |
| Scanner.FileScanner.ReadPathRecursive | src/file_scanner.rs:90-109 | clears the current slot and walks the tree from the root, leaving the other slot alone. It succeeds exactly when the walk does not abort; on success the slot holds one record per collected path; the slot only ever holds the tree's records |
| Scanner.FileScanner.ReadPath | src/file_scanner.rs:111-157 | an unreadable directory fails with `CannotOpen`. A listed one fails exactly when some file lacks a date, naming that file; otherwise it returns the subdirectories in listing order and one record per path of the directory's files |
| Scanner.EntryStep | src/file_scanner.rs:116-154 | each entry other than a file without a date keeps the read loop's invariant |
| Scanner.FatalEntry | src/file_scanner.rs:141-144 | any file without a date makes the whole directory read fail |
| Scanner.InsertRepresents | src/file_scanner.rs:144 | inserting a record into a slot that represents a record set gives a slot that represents that set plus the record |
| Scanner.WalkStep | src/file_scanner.rs:96-103 | one turn of the walk loop keeps its invariant and leaves strictly fewer directories to read |

## Left out

- `src/main.rs` is not part of this model: it holds argument handling, the runtime setup and the polling loop that drives the scanner.
- The event channel `file_tx` and the `println!` reports are not modelled. `ReadAndCompare` returns the `Changes` (new, deleted, modified) that the code prints, computed as the code computes them. The `Event` datatype is declared but no operation builds one, as in the code.
- `start` is not modelled: its body is an empty spawned loop that never returns a value. `files_reciver` is commented out in the source.
- Concurrency is not modelled. The `JoinSet` of directory reads becomes a first-in-first-out worklist. The order matters only when two records share a path, and `FileSet.RepresentsUnique` shows the slot's contents do not depend on it in a tree without repeated names.
- The `eprintln!` logging of skipped entries is not modelled. Those entries are skipped silently.
- The filesystem is an immutable tree given to the walk. Races between reads are not modelled, nor is a `next_entry` error that repeats without end (the model consumes the failed entry).
- `chrono` timestamps become integers, and `PathBuf` becomes a sequence of component names compared by character code. Root and prefix components are plain names. `folder_path` is a `Path`, so its infallible `PathBuf::from_str` is not modelled.
- Panics (`unwrap` of a failed directory open, of a missing modification date, or of the walk in `read_and_compare`) become a `Failure` result that ends the cycle.
- Scanner.FileScanner.ReadAndCompare: on a failed walk the slot's contents are stated only as a subset of the tree's records, not record by record in the order the reads ran.
- Scanner.FileScanner.ReadPathRecursive: on failure the slot is stated only to hold records of the tree, not which directories were read before the failure.
- Model.PartialCmp: its own contract says the result is `Some` and when it is Equal; antisymmetry and transitivity are stated by `Model.PartialCmpIsTotalOrder`.

## Findings

| source | as written | input that shows it | evidently intended | confidence | as-written member | corrected member |
|---|---|---|---|---|---|---|
| src/file_scanner.rs:73-76 | `prev_it` is `buff[prev].intersection(buff[curr])` and `curr_it` is `buff[curr].intersection(buff[prev])`, zipped. When one set is at most a sixteenth of the other and their ranges overlap without meeting at an end, the standard library's search strategy makes both iterators yield the smaller set's records | previous snapshot: the 16 one-letter files a .. p dated 0; current snapshot: only f, dated 1. Both iterators yield the new f, so the changed date of f is not reported | pair each common path's previous record with its current record, so that every modification is reported | not executed | Diff.AsWrittenMissesModification | Diff.ModifiedExact |
