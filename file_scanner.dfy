/**
 * FileScanner of src/file_scanner.rs: a double buffer of two snapshot slots,
 * the walk that refills the current slot, and the comparison of the two.
 */
module Scanner {
  import opened Wrappers
  import opened Model
  import opened FileSet
  import opened FsTree
  import opened Diff

  class FileScanner {
    /** folder_path: the root of the watched tree. */
    const folderPath: Path
    /** curr_buff: the slot the most recent walk fills. */
    var currBuff: nat
    /** buff: the two snapshot slots, each a BTreeSet<File>. */
    var buff: seq<seq<File>>

    ghost predicate Valid()
      reads this
    {
      currBuff < 2 && |buff| == 2 && Sorted(buff[0]) && Sorted(buff[1])
    }

    /** FileScanner::new: slot 0 current, both slots empty. */
    constructor (path: Path)
      ensures Valid()
      ensures folderPath == path && currBuff == 0 && buff == [[], []]
    {
      folderPath := path;
      currBuff := 0;
      buff := [[], []];
    }

    /**
     * FileScanner::read_and_compare: switch to the other slot, refill it with
     * a walk, and compare it with the slot just left.  A failed walk ends the
     * cycle before anything is compared.
     */
    method ReadAndCompare(fs: Listing) returns (r: Result<Changes, WalkError>)
      requires Valid()
      modifies this
      ensures Valid()
      ensures currBuff == 1 - old(currBuff)
      ensures buff[old(currBuff)] == old(buff[currBuff])
      ensures r.Success? <==> !TreeFails(fs)
      ensures r.Success? ==> Represents(buff[currBuff], TreeFiles(folderPath, fs))
      ensures r.Success? ==> r.value == DiffAsWritten(buff[old(currBuff)], buff[currBuff])
      ensures forall f :: f in buff[currBuff] ==> f in TreeFiles(folderPath, fs)
    {
      var prevBuff := currBuff;
      currBuff := (currBuff + 1) % 2;
      var walked := ReadPathRecursive(fs);
      if walked.Failure? {
        return Failure(walked.error);
      }
      var changes := Compare(buff[prevBuff], buff[currBuff]);
      return Success(changes);
    }

    /**
     * The comparison step of read_and_compare, as written: records new in
     * curr, records gone from it, and the zip of prev.intersection(curr) with
     * curr.intersection(prev) filtered for equal paths with different dates.
     * Its new and deleted records are the exact ones; its modified pairs are
     * either the exact ones or none (see the findings), and always the exact
     * ones when neither snapshot is at most a sixteenth of the other.
     */
    static method Compare(prev: seq<File>, curr: seq<File>) returns (d: Changes)
      requires Sorted(prev) && Sorted(curr)
      ensures d == DiffAsWritten(prev, curr)
      ensures d.created == DiffSnapshots(prev, curr).created
      ensures d.deleted == DiffSnapshots(prev, curr).deleted
      ensures d.modified == DiffSnapshots(prev, curr).modified || d.modified == []
      ensures |curr| > |prev| / TippingSizeDiff && |prev| > |curr| / TippingSizeDiff ==>
        d == DiffSnapshots(prev, curr)
    {
      var created := Difference(curr, prev);
      var deleted := Difference(prev, curr);
      var prevIt := Intersection(prev, curr);
      var currIt := Intersection(curr, prev);
      var modified := ZipModified(prevIt, currIt);
      d := Changes(created, deleted, modified);
      AsWrittenModifiedAllOrNothing(prev, curr);
      if |curr| > |prev| / TippingSizeDiff && |prev| > |curr| / TippingSizeDiff {
        AsWrittenRightForComparableSizes(prev, curr);
      }
    }

    /**
     * The zip loop of read_and_compare: walk both iterators in step, stop at
     * the shorter one, keep the pairs with equal paths and different dates.
     */
    static method ZipModified(prevIt: seq<File>, currIt: seq<File>) returns (modified: seq<(File, File)>)
      ensures modified == Modified(prevIt, currIt)
    {
      modified := [];
      var xs, ys := prevIt, currIt;
      while xs != [] && ys != []
        invariant modified + Modified(xs, ys) == Modified(prevIt, currIt)
        decreases |xs|
      {
        var x, y := xs[0], ys[0];
        var step := if x.path == y.path && x.lastModDate != y.lastModDate then [(x, y)] else [];
        assert Modified(xs, ys) == step + Modified(xs[1..], ys[1..]);
        ConcatAssoc(modified, step, Modified(xs[1..], ys[1..]));
        modified := modified + step;
        xs, ys := xs[1..], ys[1..];
      }
      assert Modified(xs, ys) == [];
    }

    /**
     * FileScanner::read_path_recursive: clear the current slot, then read
     * the root and every directory discovered, accumulating each directory's
     * records into the slot.  The other slot is left alone.
     */
    method ReadPathRecursive(fs: Listing) returns (r: Result<(), WalkError>)
      requires Valid()
      modifies this
      ensures Valid() && currBuff == old(currBuff)
      ensures buff[1 - currBuff] == old(buff[1 - currBuff])
      ensures r.Success? <==> !TreeFails(fs)
      ensures r.Success? ==> Represents(buff[currBuff], TreeFiles(folderPath, fs))
      ensures forall f :: f in buff[currBuff] ==> f in TreeFiles(folderPath, fs)
    {
      // The slot is cleared, then filled one directory at a time; it is
      // kept in a local and stored back wherever the walk stops.
      buff := buff[currBuff := []];
      var slot: seq<File> := [];
      ghost var all := TreeFiles(folderPath, fs);
      var tasks := [Task(folderPath, fs)];
      var failed: Option<WalkError> := None;
      while tasks != []
        invariant failed.None?
        modifies {}
        invariant Sorted(slot) && forall f :: f in slot ==> f in all
        invariant TasksFiles(tasks) <= all
        invariant Paths(slot) + Keys(TasksFiles(tasks)) == Keys(all)
        invariant TreeFails(fs) == TasksFail(tasks)
        decreases TasksSize(tasks)
      {
        var task := tasks[0];
        ghost var before := tasks;
        assert before == [task] + before[1..];
        tasks := tasks[1..];
        var res := ReadPath(task.path, task.listing);
        if res.Failure? {
          if task.listing.Listed? {
            TreeDecompose(task.path, task.listing.entries);
          }
          assert TreeFails(fs);
          failed := Some(res.error);
          break;
        }
        var (children, files) := res.value;
        var pending := children;
        while pending != []
          invariant tasks + pending == before[1..] + children
          decreases |pending|
        {
          assert tasks + pending == (tasks + [pending[0]]) + pending[1..];
          tasks := tasks + [pending[0]];
          pending := pending[1..];
        }
        assert pending == [] && tasks == before[1..] + children;
        WalkStep(all, task, before[1..], children, files, slot);
        slot := Append(slot, files);
      }
      buff := buff[currBuff := slot];
      if failed.Some? {
        return Failure(failed.value);
      }
      return Success(());
    }

    /**
     * FileScanner::read_path: open one directory and classify its entries,
     * returning its subdirectories in listing order and its records.
     */
    static method ReadPath(p: Path, l: Listing) returns (r: Result<(seq<Task>, seq<File>), WalkError>)
      ensures l.Unreadable? ==> r == Failure(CannotOpen(p))
      ensures l.Listed? ==> (r.Failure? <==> DirectFatal(l.entries))
      ensures r.Success? ==> l.Listed? && r.value.0 == ChildDirs(p, l.entries)
      ensures r.Success? ==> Represents(r.value.1, DirectFiles(p, l.entries))
      ensures r.Failure? && l.Listed? ==>
        (exists i :: 0 <= i < |l.entries| && NoModTimeAt(l.entries[i]) && r.error == NoModTime(p + [l.entries[i].name]))
    {
      if l.Unreadable? {
        return Failure(CannotOpen(p));
      }
      var entries := l.entries;
      var dirs: seq<Task> := [];
      var files: seq<File> := [];
      var i := 0;
      while i < |entries|
        invariant 0 <= i <= |entries|
        invariant dirs == ChildDirs(p, entries[..i])
        invariant !DirectFatal(entries[..i])
        invariant Represents(files, DirectFiles(p, entries[..i]))
      {
        var e := entries[i];
        if !NoModTimeAt(e) {
          EntryStep(p, entries, i, dirs, files);
        }
        // A failed next_entry (EntryError) or file_type (TypeError) is reported and skipped.
        if e.Entry? && !e.kind.TypeError? {
          if e.kind.DirNode? {
            dirs := dirs + [Task(p + [e.name], e.kind.contents)];
          } else if e.kind.FileNode? {
            // A failed metadata call (the file vanished, no permission) is skipped.
            if e.kind.meta.Metadata? {
              if e.kind.meta.modified.None? {
                FatalEntry(entries, i);
                return Failure(NoModTime(p + [e.name]));
              }
              files := Insert(files, File(p + [e.name], e.kind.meta.modified.value));
            }
          }
          // Symbolic links and other special files are neither.
        }
        i := i + 1;
      }
      assert entries[..i] == entries;
      return Success((dirs, files));
    }
  }

  /** Inserting a record into a set representing fs gives one representing fs plus the record. */
  lemma InsertRepresents(s: seq<File>, fs: set<File>, f: File)
    requires Represents(s, fs)
    ensures Represents(Insert(s, f), fs + {f})
  {
    var r := Insert(s, f);
    assert Paths(r) == Keys(fs + {f}) by {
      forall q | q in Keys(fs + {f}) ensures q in Paths(r) {
        if q == f.path && f.path !in Paths(s) {
          assert f in r;
        } else {
          assert q in Paths(s);
          var g :| g in s && g.path == q;
          assert g in r;
        }
      }
    }
  }

  /** One entry of a directory read, other than a file without a date, keeps the read loop's invariant. */
  lemma EntryStep(p: Path, es: seq<Entry>, i: nat, dirs: seq<Task>, files: seq<File>)
    requires i < |es| && !NoModTimeAt(es[i])
    requires dirs == ChildDirs(p, es[..i]) && !DirectFatal(es[..i])
    requires Represents(files, DirectFiles(p, es[..i]))
    ensures ChildDirs(p, es[..i + 1]) == dirs + EntryDirs(p, es[i]) && !DirectFatal(es[..i + 1])
    ensures EntryFiles(p, es[i]) == {} ==> Represents(files, DirectFiles(p, es[..i + 1]))
    ensures es[i].Entry? && es[i].kind.FileNode? && es[i].kind.meta.Metadata? ==>
      Represents(Insert(files, File(p + [es[i].name], es[i].kind.meta.modified.value)), DirectFiles(p, es[..i + 1]))
  {
    DirectSnoc(p, es, i);
    if es[i].Entry? && es[i].kind.FileNode? && es[i].kind.meta.Metadata? {
      InsertRepresents(files, DirectFiles(p, es[..i]), File(p + [es[i].name], es[i].kind.meta.modified.value));
    }
  }

  /** A file without a date anywhere in a listing makes the whole read fail. */
  lemma FatalEntry(es: seq<Entry>, i: nat)
    requires i < |es| && NoModTimeAt(es[i])
    ensures DirectFatal(es)
  {
    DirectConcat([], es[..i], es[i..]);
    assert es[..i] + es[i..] == es;
  }

  /**
   * One turn of the walk loop keeps the loop invariant, and costs one
   * directory read: all is the whole walk's records, acc the slot so far.
   */
  lemma WalkStep(all: set<File>, task: Task, rest: seq<Task>, children: seq<Task>, files: seq<File>, acc: seq<File>)
    requires task.listing.Listed?
    requires children == ChildDirs(task.path, task.listing.entries)
    requires Represents(files, DirectFiles(task.path, task.listing.entries))
    requires !DirectFatal(task.listing.entries)
    requires Sorted(acc) && forall f :: f in acc ==> f in all
    requires TasksFiles([task] + rest) <= all
    requires Paths(acc) + Keys(TasksFiles([task] + rest)) == Keys(all)
    ensures TasksFiles(rest + children) <= all
    ensures forall f :: f in Append(acc, files) ==> f in all
    ensures Paths(Append(acc, files)) + Keys(TasksFiles(rest + children)) == Keys(all)
    ensures TasksFail([task] + rest) == TasksFail(rest + children)
    ensures TasksSize(rest + children) < TasksSize([task] + rest)
  {
    TreeDecompose(task.path, task.listing.entries);
    TasksConcat(rest, children);
    assert ([task] + rest)[1..] == rest;
    var direct := DirectFiles(task.path, task.listing.entries);
    assert TasksFiles([task] + rest) == direct + TasksFiles(rest + children);
    KeysUnion(direct, TasksFiles(rest + children));
    AppendPaths(acc, files);
  }
}
