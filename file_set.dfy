/**
 * BTreeSet<File> as used by the scanner: a sequence kept in ascending Ord
 * order.  Ord on File compares paths only, so the order is strict on paths
 * and a set never holds two records with the same path.
 */
module FileSet {
  import opened Model

  /** The representation invariant of a BTreeSet<File>. */
  predicate Sorted(s: seq<File>)
  {
    forall i, j :: 0 <= i < j < |s| ==> Cmp(s[i], s[j]) == Less
  }

  /** The paths (the Ord keys) present in a set. */
  function Paths(s: seq<File>): set<Path>
  {
    set f | f in s :: f.path
  }

  /** The paths of a mathematical set of records. */
  function Keys(fs: set<File>): set<Path>
  {
    set f | f in fs :: f.path
  }

  /** x lies strictly below every record of s. */
  predicate Below(x: File, s: seq<File>)
  {
    forall g :: g in s ==> Cmp(x, g) == Less
  }

  lemma SortedCons(x: File, s: seq<File>)
    requires Sorted(s) && Below(x, s)
    ensures Sorted([x] + s)
    ensures x.path !in Paths(s)
  {
    var r := [x] + s;
    forall i, j | 0 <= i < j < |r| ensures Cmp(r[i], r[j]) == Less {
      if i > 0 {
        assert r[i] == s[i - 1] && r[j] == s[j - 1];
      } else {
        assert r[j] == s[j - 1];
      }
    }
  }

  /** Anything below the least record of a sorted set is below all of it. */
  lemma BelowHead(x: File, s: seq<File>)
    requires Sorted(s) && s != [] && Cmp(x, s[0]) == Less
    ensures Below(x, s)
  {
    forall g | g in s ensures Cmp(x, g) == Less {
      var j :| 0 <= j < |s| && s[j] == g;
      if j > 0 {
        CmpTransitive(x, s[0], g);
      }
    }
  }

  lemma SortedTail(s: seq<File>)
    requires Sorted(s) && s != []
    ensures Sorted(s[1..]) && Below(s[0], s[1..])
    ensures Paths(s[1..]) == Paths(s) - {s[0].path}
  {
    assert s == [s[0]] + s[1..];
    forall g | g in s[1..] ensures Cmp(s[0], g) == Less {
      var j :| 0 <= j < |s[1..]| && s[1..][j] == g;
      assert s[j + 1] == g;
    }
  }

  /** Two sorted sets with the same records are the same sequence. */
  lemma {:induction false} SortedExtensional(x: seq<File>, y: seq<File>)
    requires Sorted(x) && Sorted(y)
    requires forall g :: g in x <==> g in y
    ensures x == y
  {
    assert y != [] ==> y[0] in y;
    if x != [] {
      assert x[0] in y;
      assert y[0] in x;
      var i :| 0 <= i < |y| && y[i] == x[0];
      var j :| 0 <= j < |x| && x[j] == y[0];
      assert i == 0 || Cmp(y[0], x[0]) == Less;
      assert j == 0 || Cmp(x[0], y[0]) == Less;
      CmpReverse(x[0], y[0]);
      assert x[0] == y[0];
      SortedTail(x);
      SortedTail(y);
      forall g ensures g in x[1..] <==> g in y[1..] {
        assert x == [x[0]] + x[1..] && y == [y[0]] + y[1..];
        assert g in x[1..] <==> g in x && g != x[0];
        assert g in y[1..] <==> g in y && g != y[0];
      }
      SortedExtensional(x[1..], y[1..]);
      assert x == [x[0]] + x[1..] && y == [y[0]] + y[1..];
    }
  }

  /**
   * Two sorted sets over the same paths line up index by index: walking both
   * in ascending order visits the same path at every step.
   */
  lemma {:induction false} SamePathsAligned(x: seq<File>, y: seq<File>)
    requires Sorted(x) && Sorted(y) && Paths(x) == Paths(y)
    ensures |x| == |y|
    ensures forall k :: 0 <= k < |x| ==> x[k].path == y[k].path
  {
    assert y != [] ==> y[0].path in Paths(y);
    if x != [] {
      assert x[0].path in Paths(x);
      var i :| 0 <= i < |y| && y[i].path == x[0].path;
      var j :| 0 <= j < |x| && x[j].path == y[0].path;
      assert i == 0 || Cmp(y[0], y[i]) == Less;
      assert j == 0 || Cmp(x[0], x[j]) == Less;
      CmpReverse(x[0], y[0]);
      assert x[0].path == y[0].path;
      SortedTail(x);
      SortedTail(y);
      SamePathsAligned(x[1..], y[1..]);
      forall k | 0 <= k < |x| ensures x[k].path == y[k].path {
        if k > 0 {
          assert x[k] == x[1..][k - 1] && y[k] == y[1..][k - 1];
        }
      }
    }
  }

  /** BTreeSet::insert: adds f unless a record with its path is already there, which is then kept. */
  function Insert(s: seq<File>, f: File): (r: seq<File>)
    requires Sorted(s)
    ensures Sorted(r)
    ensures forall g :: g in r <==> g in s || (g == f && f.path !in Paths(s))
  {
    if s == [] then [f]
    else match Cmp(f, s[0])
      case Less =>
        BelowHead(f, s);
        SortedCons(f, s);
        [f] + s
      case Equal =>
        assert f.path in Paths(s);
        s
      case Greater =>
        SortedTail(s);
        CmpReverse(f, s[0]);
        var rest := Insert(s[1..], f);
        assert Below(s[0], rest);
        SortedCons(s[0], rest);
        assert s == [s[0]] + s[1..] && f.path != s[0].path;
        [s[0]] + rest
  }

  /**
   * BTreeSet::append(self, other): the union of both sets; where a path is in
   * both, the record of other is the one kept (BTreeMap::append overwrites).
   */
  function Append(s: seq<File>, t: seq<File>): (r: seq<File>)
    requires Sorted(s) && Sorted(t)
    ensures Sorted(r)
    ensures forall g :: g in r <==> g in t || (g in s && g.path !in Paths(t))
    decreases |s| + |t|
  {
    if s == [] then t
    else if t == [] then s
    else
      SortedTail(s);
      SortedTail(t);
      assert s == [s[0]] + s[1..] && t == [t[0]] + t[1..];
      match Cmp(s[0], t[0])
      case Less =>
        BelowHead(s[0], t);
        var rest := Append(s[1..], t);
        SortedCons(s[0], rest);
        [s[0]] + rest
      case Greater =>
        CmpReverse(s[0], t[0]);
        BelowHead(t[0], s);
        var rest := Append(s, t[1..]);
        SortedCons(t[0], rest);
        [t[0]] + rest
      case Equal =>
        var rest := Append(s[1..], t[1..]);
        assert Below(t[0], rest);
        SortedCons(t[0], rest);
        [t[0]] + rest
  }

  /** BTreeSet::difference(self, other): the records of a whose path is not in b, ascending. */
  function Difference(a: seq<File>, b: seq<File>): (r: seq<File>)
    requires Sorted(a)
    ensures Sorted(r)
    ensures forall g :: g in r <==> g in a && g.path !in Paths(b)
  {
    if a == [] then []
    else
      SortedTail(a);
      assert a == [a[0]] + a[1..];
      var rest := Difference(a[1..], b);
      if a[0].path in Paths(b) then rest
      else
        SortedCons(a[0], rest);
        [a[0]] + rest
  }

  /** The records of a whose path is also in b, ascending: one side of a join on paths. */
  function Shared(a: seq<File>, b: seq<File>): (r: seq<File>)
    requires Sorted(a)
    ensures Sorted(r)
    ensures forall g :: g in r <==> g in a && g.path in Paths(b)
    ensures Paths(r) == Paths(a) * Paths(b)
  {
    if a == [] then []
    else
      SortedTail(a);
      assert a == [a[0]] + a[1..];
      var rest := Shared(a[1..], b);
      if a[0].path !in Paths(b) then rest
      else
        SortedCons(a[0], rest);
        [a[0]] + rest
  }

  /** A sorted set whose only record is x is [x]. */
  lemma SortedSingleton(r: seq<File>, x: File)
    requires Sorted(r)
    requires forall g :: g in r <==> g == x
    ensures r == [x]
  {
    assert x in r;
    forall i | 0 <= i < |r| ensures r[i] == x {
      assert r[i] in r;
    }
    assert |r| < 2 || Cmp(r[0], r[1]) == Less;
  }

  /** A set none of whose paths occur in b shares nothing with b. */
  lemma SharedNone(a: seq<File>, b: seq<File>)
    requires Sorted(a)
    requires forall g :: g in a ==> g.path !in Paths(b)
    ensures Shared(a, b) == []
  {
  }

  /** A record above the greatest record of b has no path in b. */
  lemma AboveAll(g: File, b: seq<File>)
    requires Sorted(b) && b != [] && Cmp(b[|b| - 1], g) == Less
    ensures g.path !in Paths(b)
  {
    forall h | h in b ensures h.path != g.path {
      Bounds(b, h);
      if h != b[|b| - 1] { CmpTransitive(h, b[|b| - 1], g); }
    }
  }

  /** A record below the least record of b has no path in b. */
  lemma BelowAll(g: File, b: seq<File>)
    requires Sorted(b) && b != [] && Cmp(g, b[0]) == Less
    ensures g.path !in Paths(b)
  {
    BelowHead(g, b);
  }

  /** ITER_PERFORMANCE_TIPPING_SIZE_DIFF of Rust's BTreeSet. */
  const TippingSizeDiff: nat := 16

  /**
   * BTreeSet::intersection(self, other) as Rust's standard library computes
   * it.  The paths visited are those of the intersection, ascending, but the
   * records yielded come from other when other is at most a sixteenth the size
   * of self (the "search" strategy iterates the smaller set); otherwise, and
   * whenever self is the small one, they come from self.
   */
  function Intersection(a: seq<File>, b: seq<File>): (r: seq<File>)
    requires Sorted(a) && Sorted(b)
    ensures r == Shared(a, b) || (|b| <= |a| / TippingSizeDiff && r == Shared(b, a))
    ensures |a| <= |b| / TippingSizeDiff ==> r == Shared(a, b)
    ensures Sorted(r) && Paths(r) == Paths(a) * Paths(b)
  {
    if a == [] || b == [] then
      SharedNone(a, b);
      []
    else
      var aMin, aMax, bMin, bMax := a[0], a[|a| - 1], b[0], b[|b| - 1];
      if Cmp(aMin, bMax) == Greater || Cmp(aMax, bMin) == Less then
        DisjointRanges(a, b);
        []
      else if Cmp(aMin, bMax) == Equal then
        TouchingAtMin(a, b);
        [aMin]
      else if Cmp(aMax, bMin) == Equal then
        TouchingAtMax(a, b);
        [aMax]
      else if |a| <= |b| / TippingSizeDiff then Shared(a, b)
      else if |b| <= |a| / TippingSizeDiff then Shared(b, a)
      else Shared(a, b)
  }

  /** Every record of a sorted set lies between its first and last record. */
  lemma Bounds(s: seq<File>, g: File)
    requires Sorted(s) && g in s
    ensures g == s[0] || Cmp(s[0], g) == Less
    ensures g == s[|s| - 1] || Cmp(g, s[|s| - 1]) == Less
  {
  }

  lemma DisjointRanges(a: seq<File>, b: seq<File>)
    requires Sorted(a) && Sorted(b) && a != [] && b != []
    requires Cmp(a[0], b[|b| - 1]) == Greater || Cmp(a[|a| - 1], b[0]) == Less
    ensures Shared(a, b) == []
  {
    forall g | g in a ensures g.path !in Paths(b) {
      Bounds(a, g);
      if Cmp(a[0], b[|b| - 1]) == Greater {
        CmpReverse(a[0], b[|b| - 1]);
        if g != a[0] { CmpTransitive(b[|b| - 1], a[0], g); }
        AboveAll(g, b);
      } else {
        if g != a[|a| - 1] { CmpTransitive(g, a[|a| - 1], b[0]); }
        BelowAll(g, b);
      }
    }
    SharedNone(a, b);
  }

  lemma TouchingAtMin(a: seq<File>, b: seq<File>)
    requires Sorted(a) && Sorted(b) && a != [] && b != []
    requires Cmp(a[0], b[|b| - 1]) == Equal
    ensures Shared(a, b) == [a[0]]
  {
    var top := b[|b| - 1];
    assert top in b;
    forall g | g in a && g != a[0] ensures g.path !in Paths(b) {
      if g.path in Paths(b) {
        var h :| h in b && h.path == g.path;
        Bounds(a, g);
        Bounds(b, h);
        // g lies above a[0], whose path is the greatest of b, so h cannot match it.
        if h != top { CmpTransitive(h, top, g); }
      }
    }
    SortedSingleton(Shared(a, b), a[0]);
  }

  lemma TouchingAtMax(a: seq<File>, b: seq<File>)
    requires Sorted(a) && Sorted(b) && a != [] && b != []
    requires Cmp(a[|a| - 1], b[0]) == Equal
    ensures Shared(a, b) == [a[|a| - 1]]
  {
    var top := a[|a| - 1];
    assert b[0] in b;
    forall g | g in a && g != top ensures g.path !in Paths(b) {
      if g.path in Paths(b) {
        var h :| h in b && h.path == g.path;
        Bounds(a, g);
        Bounds(b, h);
        if h != b[0] { CmpTransitive(g, b[0], h); }
      }
    }
    SortedSingleton(Shared(a, b), top);
  }

  /** At most one record per path. */
  predicate UniquePaths(fs: set<File>)
  {
    forall f, g :: f in fs && g in fs && f.path == g.path ==> f == g
  }

  /**
   * s holds, for every path of fs, one record of fs with that path, and
   * nothing else: what accumulating the records of fs into a BTreeSet leaves.
   */
  predicate Represents(s: seq<File>, fs: set<File>)
  {
    Sorted(s) && (forall f :: f in s ==> f in fs) && Paths(s) == Keys(fs)
  }

  /** Without two records of one path, a set representing fs holds exactly fs. */
  lemma RepresentsExactly(s: seq<File>, fs: set<File>)
    requires Represents(s, fs) && UniquePaths(fs)
    ensures forall f :: f in s <==> f in fs
  {
    forall f | f in fs ensures f in s {
      assert f.path in Keys(fs);
      var g :| g in s && g.path == f.path;
    }
  }

  /** ... so any two sets representing it are the same. */
  lemma RepresentsUnique(s: seq<File>, t: seq<File>, fs: set<File>)
    requires Represents(s, fs) && Represents(t, fs) && UniquePaths(fs)
    ensures s == t
  {
    RepresentsExactly(s, fs);
    RepresentsExactly(t, fs);
    SortedExtensional(s, t);
  }

  lemma KeysUnion(a: set<File>, b: set<File>)
    ensures Keys(a + b) == Keys(a) + Keys(b)
  {
  }

  lemma AppendPaths(s: seq<File>, t: seq<File>)
    requires Sorted(s) && Sorted(t)
    ensures Paths(Append(s, t)) == Paths(s) + Paths(t)
  {
    var r := Append(s, t);
    forall q | q in Paths(s) + Paths(t) ensures q in Paths(r) {
      if q in Paths(t) {
        var g :| g in t && g.path == q;
        assert g in r;
      } else {
        var g :| g in s && g.path == q;
        assert g in r;
      }
    }
  }
}
