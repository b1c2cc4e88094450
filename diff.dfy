/**
 * The comparison step of FileScanner::read_and_compare: records new in the
 * current snapshot, records gone from it, and records whose modification date
 * changed, found by zipping the two path-ordered intersections.
 */
module Diff {
  import opened Model
  import opened FileSet

  /** What one comparison reports: new records, deleted records, (previous, current) pairs with a new date. */
  datatype Changes = Changes(created: seq<File>, deleted: seq<File>, modified: seq<(File, File)>)

  /**
   * Zip the two intersection iterators (stopping at the shorter, as
   * Iterator::zip does) and keep the pairs with equal paths and different dates.
   */
  function Modified(prevIt: seq<File>, currIt: seq<File>): (r: seq<(File, File)>)
    ensures |r| <= |prevIt| && |r| <= |currIt|
    ensures forall q :: q in r ==> q.0.path == q.1.path && q.0.lastModDate != q.1.lastModDate
  {
    if prevIt == [] || currIt == [] then []
    else
      var x, y := prevIt[0], currIt[0];
      var rest := Modified(prevIt[1..], currIt[1..]);
      if x.path == y.path && x.lastModDate != y.lastModDate then [(x, y)] + rest else rest
  }

  /** The pairs reported are exactly the aligned pairs with equal paths and different dates. */
  lemma {:induction false} ModifiedMembers(prevIt: seq<File>, currIt: seq<File>)
    ensures forall x, y :: (x, y) in Modified(prevIt, currIt) <==>
      exists k :: 0 <= k < |prevIt| && k < |currIt| && prevIt[k] == x && currIt[k] == y &&
        x.path == y.path && x.lastModDate != y.lastModDate
  {
    if prevIt != [] && currIt != [] {
      ModifiedMembers(prevIt[1..], currIt[1..]);
      assert forall k :: 0 < k < |prevIt| && k < |currIt| ==>
        prevIt[k] == prevIt[1..][k - 1] && currIt[k] == currIt[1..][k - 1];
    }
  }

  /** One step of the zip: the pair at k, then the rest. */
  lemma ModifiedStep(xs: seq<File>, ys: seq<File>, k: nat)
    requires k < |xs| && k < |ys|
    ensures Modified(xs[k..], ys[k..]) ==
      (if xs[k].path == ys[k].path && xs[k].lastModDate != ys[k].lastModDate then [(xs[k], ys[k])] else []) +
      Modified(xs[k + 1..], ys[k + 1..])
  {
    assert xs[k..][1..] == xs[k + 1..] && ys[k..][1..] == ys[k + 1..];
  }

  /**
   * Concatenation of reported pairs regroups freely.  A proof helper: stated
   * on its own it keeps the zip loop's invariant step cheap for the solver.
   */
  lemma ConcatAssoc(a: seq<(File, File)>, b: seq<(File, File)>, c: seq<(File, File)>)
    ensures (a + b) + c == a + (b + c)
  {
  }

  /** The zip stops with the shorter iterator. */
  lemma ModifiedEnd(xs: seq<File>, ys: seq<File>, k: nat)
    requires k <= |xs| && k <= |ys| && (k == |xs| || k == |ys|)
    ensures Modified(xs[k..], ys[k..]) == []
  {
  }

  /** Zipping an iterator with itself never reports anything: every pair has equal dates. */
  lemma {:induction false} ModifiedSelf(xs: seq<File>)
    ensures Modified(xs, xs) == []
  {
    if xs != [] {
      ModifiedSelf(xs[1..]);
    }
  }

  /**
   * The comparison as written: difference both ways, and the zip of
   * prev.intersection(curr) with curr.intersection(prev).
   */
  function DiffAsWritten(prev: seq<File>, curr: seq<File>): (d: Changes)
    requires Sorted(prev) && Sorted(curr)
    ensures forall f :: f in d.created <==> f in curr && f.path !in Paths(prev)
    ensures forall f :: f in d.deleted <==> f in prev && f.path !in Paths(curr)
    ensures forall q :: q in d.modified ==> q.0.path == q.1.path && q.0.lastModDate != q.1.lastModDate
  {
    Changes(Difference(curr, prev), Difference(prev, curr),
            Modified(Intersection(prev, curr), Intersection(curr, prev)))
  }

  /**
   * The comparison with the pairing made explicit: the first iterator yields
   * the previous snapshot's records of the common paths, the second the
   * current snapshot's, both ascending.
   */
  function DiffSnapshots(prev: seq<File>, curr: seq<File>): (d: Changes)
    requires Sorted(prev) && Sorted(curr)
    ensures forall f :: f in d.created <==> f in curr && f.path !in Paths(prev)
    ensures forall f :: f in d.deleted <==> f in prev && f.path !in Paths(curr)
    ensures forall q :: q in d.modified ==> q.0.path == q.1.path && q.0.lastModDate != q.1.lastModDate
  {
    Changes(Difference(curr, prev), Difference(prev, curr),
            Modified(Shared(prev, curr), Shared(curr, prev)))
  }

  /**
   * Both intersection iterators yield the same ascending sequence of paths
   * (the common paths), so the zip loses nothing and pairs equal paths only;
   * this holds for the standard library's intersection as well.
   */
  lemma IntersectionsAligned(prev: seq<File>, curr: seq<File>)
    requires Sorted(prev) && Sorted(curr)
    ensures var xs, ys := Intersection(prev, curr), Intersection(curr, prev);
      |xs| == |ys| == |Paths(prev) * Paths(curr)| &&
      forall k :: 0 <= k < |xs| ==> xs[k].path == ys[k].path
  {
    var xs, ys := Intersection(prev, curr), Intersection(curr, prev);
    SamePathsAligned(xs, ys);
    SortedSize(xs);
  }

  /**
   * The corrected iterators: one record of each snapshot per common path,
   * aligned by position.
   */
  lemma SharedAligned(prev: seq<File>, curr: seq<File>)
    requires Sorted(prev) && Sorted(curr)
    ensures var xs, ys := Shared(prev, curr), Shared(curr, prev);
      |xs| == |ys| == |Paths(prev) * Paths(curr)| &&
      (forall k :: 0 <= k < |xs| ==> xs[k].path == ys[k].path) &&
      (forall k :: 0 <= k < |xs| ==> xs[k] in prev && ys[k] in curr)
  {
    var sx, sy := Shared(prev, curr), Shared(curr, prev);
    SamePathsAligned(sx, sy);
    SortedSize(sx);
    forall k | 0 <= k < |sx| ensures sx[k] in prev && sy[k] in curr {
      assert sx[k] in sx && sy[k] in sy;
    }
  }

  /** A sorted set has one path per record. */
  lemma {:induction false} SortedSize(s: seq<File>)
    requires Sorted(s)
    ensures |Paths(s)| == |s|
  {
    if s != [] {
      SortedTail(s);
      SortedSize(s[1..]);
      assert Paths(s) == Paths(s[1..]) + {s[0].path};
    }
  }

  /**
   * New and deleted records: a path of exactly one snapshot is reported once,
   * as new when only the current snapshot has it and as deleted when only the
   * previous one has it, never as both; a path of both is reported as neither.
   */
  lemma CreatedDeletedExact(prev: seq<File>, curr: seq<File>)
    requires Sorted(prev) && Sorted(curr)
    ensures var d := DiffSnapshots(prev, curr);
      (forall f :: f in d.created <==> f in curr && f.path !in Paths(prev)) &&
      (forall f :: f in d.deleted <==> f in prev && f.path !in Paths(curr)) &&
      Paths(d.created) == Paths(curr) - Paths(prev) &&
      Paths(d.deleted) == Paths(prev) - Paths(curr) &&
      Sorted(d.created) && Sorted(d.deleted)
  {
    var d := DiffSnapshots(prev, curr);
    assert Paths(d.created) == Paths(curr) - Paths(prev) by {
      forall q | q in Paths(curr) - Paths(prev) ensures q in Paths(d.created) {
        var f :| f in curr && f.path == q;
        assert f in d.created;
      }
    }
    assert Paths(d.deleted) == Paths(prev) - Paths(curr) by {
      forall q | q in Paths(prev) - Paths(curr) ensures q in Paths(d.deleted) {
        var f :| f in prev && f.path == q;
        assert f in d.deleted;
      }
    }
  }

  /**
   * Modified records: a pair is reported exactly when it is the previous and
   * the current record of one path and their dates differ.
   */
  lemma ModifiedExact(prev: seq<File>, curr: seq<File>)
    requires Sorted(prev) && Sorted(curr)
    ensures forall x, y :: (x, y) in DiffSnapshots(prev, curr).modified <==>
      x in prev && y in curr && x.path == y.path && x.lastModDate != y.lastModDate
  {
    var xs, ys := Shared(prev, curr), Shared(curr, prev);
    SharedAligned(prev, curr);
    ModifiedMembers(xs, ys);
    forall x, y | x in prev && y in curr && x.path == y.path && x.lastModDate != y.lastModDate
      ensures (x, y) in Modified(xs, ys)
    {
      assert x.path in Paths(curr) && y.path in Paths(prev);
      assert x in xs && y in ys;
      var i :| 0 <= i < |xs| && xs[i] == x;
      var j :| 0 <= j < |ys| && ys[j] == y;
      SortedSamePath(ys, i, j);
    }
  }

  /** In a sorted set two positions holding the same path are one position. */
  lemma SortedSamePath(s: seq<File>, i: nat, j: nat)
    requires Sorted(s) && i < |s| && j < |s| && s[i].path == s[j].path
    ensures i == j
  {
  }

  /** Comparing a snapshot with an identical one reports nothing at all. */
  lemma UnchangedReportsNothing(prev: seq<File>, curr: seq<File>)
    requires Sorted(prev) && Sorted(curr)
    requires forall f :: f in prev <==> f in curr
    ensures DiffSnapshots(prev, curr) == Changes([], [], [])
  {
    SortedExtensional(prev, curr);
    var d := DiffSnapshots(prev, curr);
    SortedExtensional(d.created, []);
    SortedExtensional(d.deleted, []);
    forall f | f in curr ensures f.path in Paths(prev) { assert f in prev; }
    assert Shared(prev, curr) == Shared(curr, prev);
    ModifiedSelf(Shared(prev, curr));
  }

  // ----- the pairing as written -----

  /**
   * The comparison as written reports the same new and deleted records, and
   * either exactly the corrected modified pairs or none at all: it never
   * reports a wrong pair, but it can miss every modification.
   */
  lemma AsWrittenModifiedAllOrNothing(prev: seq<File>, curr: seq<File>)
    requires Sorted(prev) && Sorted(curr)
    ensures DiffAsWritten(prev, curr).created == DiffSnapshots(prev, curr).created
    ensures DiffAsWritten(prev, curr).deleted == DiffSnapshots(prev, curr).deleted
    ensures DiffAsWritten(prev, curr).modified == DiffSnapshots(prev, curr).modified ||
            DiffAsWritten(prev, curr).modified == []
  {
    var xs, ys := Intersection(prev, curr), Intersection(curr, prev);
    if xs != Shared(prev, curr) {
      // prev.intersection(curr) iterated curr, so curr is small and curr.intersection(prev) did too
      assert ys == Shared(curr, prev) == xs;
      ModifiedSelf(xs);
    } else if ys != Shared(curr, prev) {
      assert ys == Shared(prev, curr) == xs;
      ModifiedSelf(xs);
    }
  }

  /** When neither snapshot is at most a sixteenth of the other, the pairing as written is right. */
  lemma AsWrittenRightForComparableSizes(prev: seq<File>, curr: seq<File>)
    requires Sorted(prev) && Sorted(curr)
    requires |curr| > |prev| / TippingSizeDiff && |prev| > |curr| / TippingSizeDiff
    ensures DiffAsWritten(prev, curr) == DiffSnapshots(prev, curr)
  {
  }

  function Letter(i: nat): File
    requires i < 16
  {
    File([[('a' as int + i) as char]], 0)
  }

  /** The sixteen one-letter files a .. p, all dated 0, as a snapshot. */
  function Letters(): (s: seq<File>)
    ensures |s| == 16 && forall i :: 0 <= i < 16 ==> s[i] == Letter(i)
    ensures Sorted(s)
  {
    seq(16, i requires 0 <= i < 16 => Letter(i))
  }

  /** The one record the current snapshot keeps in the example below: f, with a new date. */
  function Survivor(): File
  {
    File([['f']], 1)
  }

  /**
   * With a .. p before and only f now, both intersections take the "search"
   * strategy (one record is at most a sixteenth of sixteen, strictly inside
   * a .. p) and yield the current record.
   */
  lemma SearchStrategyTaken()
    ensures Sorted(Letters()) && Sorted([Survivor()])
    ensures Intersection(Letters(), [Survivor()]) == Shared([Survivor()], Letters())
    ensures Intersection([Survivor()], Letters()) == Shared([Survivor()], Letters())
  {
    var prev, changed := Letters(), Survivor();
    assert Cmp(prev[0], changed) == Less && Cmp(prev[15], changed) == Greater;
    assert Cmp(changed, prev[15]) == Less && Cmp(changed, prev[0]) == Greater;
  }

  /** The corrected join of the same two snapshots pairs f's old record with its new one. */
  lemma CorrectedJoin()
    ensures Sorted(Letters()) && Sorted([Survivor()])
    ensures Shared(Letters(), [Survivor()]) == [Letter(5)]
    ensures Shared([Survivor()], Letters()) == [Survivor()]
  {
    var prev, changed := Letters(), Survivor();
    var curr := [changed];
    assert prev[5] == Letter(5) && Letter(5).path == changed.path;
    assert changed.path in Paths(prev) && changed.path in Paths(curr);
    forall g ensures g in Shared(prev, curr) <==> g == Letter(5) {
      if g in Shared(prev, curr) {
        var j :| 0 <= j < 16 && prev[j] == g;
        assert g.path == changed.path;
        assert g.path[0][0] == 'f';
      }
    }
    SortedSingleton(Shared(prev, curr), Letter(5));
    SortedSingleton(Shared(curr, prev), changed);
  }

  /**
   * Sixteen files a .. p, of which only f survives, with a new date: the
   * comparison as written reports no modification, the corrected one reports it.
   */
  lemma AsWrittenMissesModification()
    ensures Sorted(Letters()) && Sorted([Survivor()])
    ensures DiffAsWritten(Letters(), [Survivor()]).modified == []
    ensures DiffSnapshots(Letters(), [Survivor()]).modified == [(Letter(5), Survivor())]
  {
    SearchStrategyTaken();
    ModifiedSelf(Shared([Survivor()], Letters()));
    CorrectedJoin();
  }
}
