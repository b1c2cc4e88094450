/**
 * The directory tree a scan walks, as an immutable value (the tree is taken
 * to be fixed for the duration of one walk), and reference definitions of
 * what one directory read and what a whole walk collect.
 */
module FsTree {
  import opened Wrappers
  import opened Model
  import opened FileSet

  /** What opening a directory (tokio::fs::read_dir) yields: an error, or its entries in listing order. */
  datatype Listing = Unreadable | Listed(entries: seq<Entry>)

  /** One successful step of ReadDir::next_entry, or one that failed (the failed entry is consumed). */
  datatype Entry = EntryError | Entry(name: Name, kind: Kind)

  /** What DirEntry::file_type reports for an entry (symbolic links are not followed). */
  datatype Kind =
    | TypeError                   // file_type() failed
    | DirNode(contents: Listing)  // is_dir()
    | FileNode(meta: Meta)        // is_file(); meta is what DirEntry::metadata reports
    | SymlinkNode                 // a symbolic link: neither is_dir() nor is_file()
    | OtherNode                   // fifo, socket, device: neither is_dir() nor is_file()

  /** DirEntry::metadata: an error, or metadata whose modified() may be unavailable on the platform. */
  datatype Meta = MetadataError | Metadata(modified: Option<Timestamp>)

  /** A scheduled directory read: the directory's path and what opening it yields. */
  datatype Task = Task(path: Path, listing: Listing)

  /** The two conditions that abort a walk. */
  datatype WalkError = CannotOpen(path: Path) | NoModTime(path: Path)

  // ----- one directory -----

  /** The subdirectory an entry contributes to the list of directories still to read. */
  function EntryDirs(p: Path, e: Entry): seq<Task>
  {
    match e
    case Entry(n, DirNode(l)) => [Task(p + [n], l)]
    case _ => []
  }

  /** The record an entry contributes: a regular file with metadata and a modification date. */
  function EntryFiles(p: Path, e: Entry): set<File>
  {
    match e
    case Entry(n, FileNode(Metadata(Some(t)))) => {File(p + [n], t)}
    case _ => {}
  }

  /** A regular file whose metadata was read but whose modification date is unavailable. */
  predicate NoModTimeAt(e: Entry)
  {
    e.Entry? && e.kind.FileNode? && e.kind.meta.Metadata? && e.kind.meta.modified.None?
  }

  /** The subdirectories of the directory at p, in listing order. */
  function ChildDirs(p: Path, es: seq<Entry>): seq<Task>
  {
    if es == [] then [] else EntryDirs(p, es[0]) + ChildDirs(p, es[1..])
  }

  /** The records of the regular files directly in the directory at p. */
  function DirectFiles(p: Path, es: seq<Entry>): set<File>
  {
    if es == [] then {} else EntryFiles(p, es[0]) + DirectFiles(p, es[1..])
  }

  /** Reading the directory meets a file without a modification date. */
  predicate DirectFatal(es: seq<Entry>)
  {
    es != [] && (NoModTimeAt(es[0]) || DirectFatal(es[1..]))
  }

  lemma {:induction false} DirectConcat(p: Path, a: seq<Entry>, b: seq<Entry>)
    ensures ChildDirs(p, a + b) == ChildDirs(p, a) + ChildDirs(p, b)
    ensures DirectFiles(p, a + b) == DirectFiles(p, a) + DirectFiles(p, b)
    ensures DirectFatal(a + b) == (DirectFatal(a) || DirectFatal(b))
  {
    if a != [] {
      assert (a + b)[1..] == a[1..] + b;
      DirectConcat(p, a[1..], b);
    } else {
      assert a + b == b;
    }
  }

  /** Extending a listing prefix by one entry adds exactly that entry's contribution. */
  lemma DirectSnoc(p: Path, es: seq<Entry>, i: nat)
    requires i < |es|
    ensures ChildDirs(p, es[..i + 1]) == ChildDirs(p, es[..i]) + EntryDirs(p, es[i])
    ensures DirectFiles(p, es[..i + 1]) == DirectFiles(p, es[..i]) + EntryFiles(p, es[i])
    ensures DirectFatal(es[..i + 1]) == (DirectFatal(es[..i]) || NoModTimeAt(es[i]))
  {
    assert es[..i + 1] == es[..i] + [es[i]];
    DirectConcat(p, es[..i], [es[i]]);
    assert [es[i]][1..] == [];
  }

  predicate DistinctNames(es: seq<Entry>)
  {
    forall i, j :: 0 <= i < j < |es| && es[i].Entry? && es[j].Entry? ==> es[i].name != es[j].name
  }

  /**
   * The per-entry policy of one directory read, for a directory whose entry
   * names are distinct: the entry's path is recorded exactly when it is a
   * regular file with metadata and a modification date (and then with that
   * date), and scheduled for reading exactly when it is a directory.
   * Symbolic links, other special files and entries whose file type or
   * metadata could not be read appear in neither output.
   */
  lemma {:induction false} EntryPolicy(p: Path, es: seq<Entry>, k: nat)
    requires DistinctNames(es) && k < |es| && es[k].Entry?
    ensures p + [es[k].name] in Keys(DirectFiles(p, es)) <==>
            es[k].kind.FileNode? && es[k].kind.meta.Metadata? && es[k].kind.meta.modified.Some?
    ensures es[k].kind.FileNode? && es[k].kind.meta.Metadata? && es[k].kind.meta.modified.Some? ==>
            File(p + [es[k].name], es[k].kind.meta.modified.value) in DirectFiles(p, es)
    ensures (exists t :: t in ChildDirs(p, es) && t.path == p + [es[k].name]) <==> es[k].kind.DirNode?
    ensures es[k].kind.DirNode? ==> Task(p + [es[k].name], es[k].kind.contents) in ChildDirs(p, es)
  {
    var name := p + [es[k].name];
    var rest := es[1..];
    assert DistinctNames(rest) by {
      forall i, j | 0 <= i < j < |rest| && rest[i].Entry? && rest[j].Entry? ensures rest[i].name != rest[j].name {
        assert rest[i] == es[i + 1] && rest[j] == es[j + 1];
      }
    }
    if k == 0 {
      NameAbsent(p, rest, es[0].name);
    } else {
      EntryPolicy(p, rest, k - 1);
      assert rest[k - 1] == es[k];
      if es[0].Entry? {
        assert es[0].name != es[k].name;
        assert p + [es[0].name] != name by { assert (p + [es[0].name])[|p|] == es[0].name; assert name[|p|] == es[k].name; }
      }
    }
  }

  /** A name no entry carries yields no record and no scheduled directory. */
  lemma {:induction false} NameAbsent(p: Path, es: seq<Entry>, n: Name)
    requires forall i :: 0 <= i < |es| && es[i].Entry? ==> es[i].name != n
    ensures p + [n] !in Keys(DirectFiles(p, es))
    ensures forall t :: t in ChildDirs(p, es) ==> t.path != p + [n]
  {
    if es != [] {
      NameAbsent(p, es[1..], n);
      if es[0].Entry? {
        assert p + [es[0].name] != p + [n] by { assert (p + [es[0].name])[|p|] == es[0].name; }
      }
    }
  }

  // ----- the whole tree -----

  /**
   * Every record a complete walk from the directory at p collects: the
   * regular files with metadata and a modification date in it and,
   * recursively, in its subdirectories.
   */
  function TreeFiles(p: Path, l: Listing): set<File>
    decreases l, 1
  {
    match l
    case Unreadable => {}
    case Listed(_) => EntriesTreeFiles(p, l, 0)
  }

  function EntriesTreeFiles(p: Path, l: Listing, i: nat): set<File>
    requires l.Listed? && i <= |l.entries|
    decreases l, 0, |l.entries| - i
  {
    if i == |l.entries| then {}
    else
      var here := match l.entries[i]
        case Entry(n, DirNode(sub)) => TreeFiles(p + [n], sub)
        case e => EntryFiles(p, e);
      here + EntriesTreeFiles(p, l, i + 1)
  }

  /** A walk from a directory aborts: some directory reached cannot be opened, or some file read lacks a date. */
  predicate TreeFails(l: Listing)
    decreases l, 1
  {
    match l
    case Unreadable => true
    case Listed(_) => EntriesTreeFails(l, 0)
  }

  predicate EntriesTreeFails(l: Listing, i: nat)
    requires l.Listed? && i <= |l.entries|
    decreases l, 0, |l.entries| - i
  {
    if i == |l.entries| then false
    else
      var here := match l.entries[i]
        case Entry(_, DirNode(sub)) => TreeFails(sub)
        case e => NoModTimeAt(e);
      here || EntriesTreeFails(l, i + 1)
  }

  /** The number of directories in a tree: each is read once by a walk. */
  function TreeSize(l: Listing): nat
    decreases l, 1
  {
    match l
    case Unreadable => 1
    case Listed(_) => 1 + EntriesTreeSize(l, 0)
  }

  function EntriesTreeSize(l: Listing, i: nat): nat
    requires l.Listed? && i <= |l.entries|
    decreases l, 0, |l.entries| - i
  {
    if i == |l.entries| then 0
    else
      var here := match l.entries[i]
        case Entry(_, DirNode(sub)) => TreeSize(sub)
        case _ => 0;
      here + EntriesTreeSize(l, i + 1)
  }

  /** What the scheduled reads still to run would contribute, fail on, and cost. */
  function TasksFiles(ts: seq<Task>): set<File>
  {
    if ts == [] then {} else TreeFiles(ts[0].path, ts[0].listing) + TasksFiles(ts[1..])
  }

  predicate TasksFail(ts: seq<Task>)
  {
    ts != [] && (TreeFails(ts[0].listing) || TasksFail(ts[1..]))
  }

  function TasksSize(ts: seq<Task>): nat
  {
    if ts == [] then 0 else TreeSize(ts[0].listing) + TasksSize(ts[1..])
  }

  lemma {:induction false} TasksConcat(a: seq<Task>, b: seq<Task>)
    ensures TasksFiles(a + b) == TasksFiles(a) + TasksFiles(b)
    ensures TasksFail(a + b) == (TasksFail(a) || TasksFail(b))
    ensures TasksSize(a + b) == TasksSize(a) + TasksSize(b)
  {
    if a != [] {
      assert (a + b)[1..] == a[1..] + b;
      TasksConcat(a[1..], b);
    } else {
      assert a + b == b;
    }
  }

  /** The records of the entries from i on: their own files plus the subtrees they schedule. */
  lemma {:induction false} EntriesDecomposeFiles(p: Path, l: Listing, i: nat)
    requires l.Listed? && i <= |l.entries|
    ensures EntriesTreeFiles(p, l, i) == DirectFiles(p, l.entries[i..]) + TasksFiles(ChildDirs(p, l.entries[i..]))
    decreases |l.entries| - i
  {
    var es := l.entries[i..];
    if i < |l.entries| {
      EntriesDecomposeFiles(p, l, i + 1);
      assert es[1..] == l.entries[i + 1..];
      assert es[0] == l.entries[i];
      TasksConcat(EntryDirs(p, es[0]), ChildDirs(p, es[1..]));
      var d := EntryDirs(p, es[0]);
      assert d == [] || d[1..] == [];
    } else {
      assert es == [];
    }
  }

  /** The entries from i on abort a walk exactly when their own read or a scheduled subtree does. */
  lemma {:induction false} EntriesDecomposeFails(p: Path, l: Listing, i: nat)
    requires l.Listed? && i <= |l.entries|
    ensures EntriesTreeFails(l, i) == (DirectFatal(l.entries[i..]) || TasksFail(ChildDirs(p, l.entries[i..])))
    decreases |l.entries| - i
  {
    var es := l.entries[i..];
    if i < |l.entries| {
      EntriesDecomposeFails(p, l, i + 1);
      assert es[1..] == l.entries[i + 1..];
      assert es[0] == l.entries[i];
      TasksConcat(EntryDirs(p, es[0]), ChildDirs(p, es[1..]));
      var d := EntryDirs(p, es[0]);
      assert d == [] || d[1..] == [];
    } else {
      assert es == [];
    }
  }

  /** The directories below the entries from i on are those of the subtrees they schedule. */
  lemma {:induction false} EntriesDecomposeSize(p: Path, l: Listing, i: nat)
    requires l.Listed? && i <= |l.entries|
    ensures EntriesTreeSize(l, i) == TasksSize(ChildDirs(p, l.entries[i..]))
    decreases |l.entries| - i
  {
    var es := l.entries[i..];
    if i < |l.entries| {
      EntriesDecomposeSize(p, l, i + 1);
      assert es[1..] == l.entries[i + 1..];
      assert es[0] == l.entries[i];
      TasksConcat(EntryDirs(p, es[0]), ChildDirs(p, es[1..]));
      var d := EntryDirs(p, es[0]);
      assert d == [] || d[1..] == [];
    } else {
      assert es == [];
    }
  }

  /**
   * Reading one directory and scheduling its subdirectories accounts for the
   * whole subtree: its records are the directory's own plus those of the
   * scheduled reads, it fails exactly when the read or one of them fails, and
   * one read fewer remains.
   */
  lemma TreeDecompose(p: Path, es: seq<Entry>)
    ensures TreeFiles(p, Listed(es)) == DirectFiles(p, es) + TasksFiles(ChildDirs(p, es))
    ensures TreeFails(Listed(es)) == (DirectFatal(es) || TasksFail(ChildDirs(p, es)))
    ensures TreeSize(Listed(es)) == 1 + TasksSize(ChildDirs(p, es))
  {
    EntriesDecomposeFiles(p, Listed(es), 0);
    EntriesDecomposeFails(p, Listed(es), 0);
    EntriesDecomposeSize(p, Listed(es), 0);
    assert es[0..] == es;
  }

  // ----- well-formed trees -----

  /** Real directories never list two entries with the same name. */
  predicate WellFormed(l: Listing)
    decreases l, 1
  {
    match l
    case Unreadable => true
    case Listed(es) => DistinctNames(es) && EntriesWellFormed(l, 0)
  }

  predicate EntriesWellFormed(l: Listing, i: nat)
    requires l.Listed? && i <= |l.entries|
    decreases l, 0, |l.entries| - i
  {
    i == |l.entries| ||
    ((match l.entries[i]
      case Entry(_, DirNode(sub)) => WellFormed(sub)
      case _ => true) && EntriesWellFormed(l, i + 1))
  }

  /** Every record collected below the directory at p lies strictly under p. */
  lemma {:induction false} TreeFilesUnder(p: Path, l: Listing)
    ensures forall f :: f in TreeFiles(p, l) ==> |f.path| > |p| && f.path[..|p|] == p
    decreases l, 1
  {
    if l.Listed? {
      EntriesFilesUnder(p, l, 0);
    }
  }

  /** ...and its component right below p is the name of an entry at or after i. */
  lemma {:induction false} EntriesFilesUnder(p: Path, l: Listing, i: nat)
    requires l.Listed? && i <= |l.entries|
    ensures forall f :: f in EntriesTreeFiles(p, l, i) ==>
      |f.path| > |p| && f.path[..|p|] == p &&
      exists j :: i <= j < |l.entries| && l.entries[j].Entry? && l.entries[j].name == f.path[|p|]
    decreases l, 0, |l.entries| - i
  {
    if i < |l.entries| {
      EntriesFilesUnder(p, l, i + 1);
      var e := l.entries[i];
      match e
      case Entry(n, DirNode(sub)) =>
        TreeFilesUnder(p + [n], sub);
        forall f | f in TreeFiles(p + [n], sub)
          ensures |f.path| > |p| && f.path[..|p|] == p && f.path[|p|] == n
        {
          assert f.path[..|p| + 1] == p + [n];
          assert f.path[..|p|] == f.path[..|p| + 1][..|p|];
          assert f.path[|p|] == f.path[..|p| + 1][|p|];
        }
      case Entry(n, FileNode(Metadata(Some(t)))) =>
        assert EntryFiles(p, e) == {File(p + [n], t)};
      case _ =>
    }
  }

  /** In a well-formed tree no two records collected by a walk share a path. */
  lemma {:induction false} WellFormedUniquePaths(p: Path, l: Listing)
    requires WellFormed(l)
    ensures UniquePaths(TreeFiles(p, l))
    decreases l, 1
  {
    if l.Listed? {
      EntriesUniquePaths(p, l, 0);
    }
  }

  lemma {:induction false} EntriesUniquePaths(p: Path, l: Listing, i: nat)
    requires l.Listed? && i <= |l.entries|
    requires DistinctNames(l.entries) && EntriesWellFormed(l, i)
    ensures UniquePaths(EntriesTreeFiles(p, l, i))
    decreases l, 0, |l.entries| - i
  {
    if i < |l.entries| {
      EntriesUniquePaths(p, l, i + 1);
      EntriesFilesUnder(p, l, i + 1);
      var es := l.entries;
      var e := es[i];
      var rest := EntriesTreeFiles(p, l, i + 1);
      var here: set<File>;
      match e {
        case Entry(n, DirNode(sub)) =>
          WellFormedUniquePaths(p + [n], sub);
          TreeFilesUnder(p + [n], sub);
          here := TreeFiles(p + [n], sub);
          forall f | f in here ensures f.path[|p|] == n {
            assert f.path[..|p| + 1] == p + [n];
            assert f.path[|p|] == f.path[..|p| + 1][|p|];
          }
        case Entry(n, FileNode(Metadata(Some(t)))) =>
          here := {File(p + [n], t)};
        case _ =>
          here := {};
      }
      assert EntriesTreeFiles(p, l, i) == here + rest;
      forall f, g | f in here && g in rest ensures f.path != g.path {
        var j :| i < j < |es| && es[j].Entry? && es[j].name == g.path[|p|];
        assert es[i].name != es[j].name;
      }
    }
  }
}
