/**
 * The record types of src/model.rs: a file record ordered by path alone but
 * compared for equality on path and modification date, and the event kinds.
 */
module Model {
  import opened Wrappers

  /** std::cmp::Ordering. */
  datatype Ordering = Less | Equal | Greater

  /** Ordering::reverse. */
  function Reverse(o: Ordering): Ordering
  {
    match o
    case Less => Greater
    case Equal => Equal
    case Greater => Less
  }

  /** One path component (an OsStr); compared by code point, which is byte order for UTF-8. */
  type Name = string

  /** A path as its sequence of components, as Path::components yields them. */
  type Path = seq<Name>

  /** A modification date, kept opaque: only equality and nothing else is used. */
  type Timestamp = int

  /** Lexicographic comparison of two components. */
  function CompareNames(a: Name, b: Name): (r: Ordering)
    ensures r == Equal <==> a == b
  {
    if a == [] then (if b == [] then Equal else Less)
    else if b == [] then Greater
    else if a[0] < b[0] then Less
    else if b[0] < a[0] then Greater
    else
      var r := CompareNames(a[1..], b[1..]);
      assert r == Equal ==> a == [a[0]] + a[1..] && b == [b[0]] + b[1..];
      r
  }

  lemma {:induction false} CompareNamesReverse(a: Name, b: Name)
    ensures CompareNames(b, a) == Reverse(CompareNames(a, b))
  {
    if a != [] && b != [] && a[0] == b[0] {
      CompareNamesReverse(a[1..], b[1..]);
    }
  }

  lemma {:induction false} CompareNamesTransitive(a: Name, b: Name, c: Name)
    requires CompareNames(a, b) == Less && CompareNames(b, c) == Less
    ensures CompareNames(a, c) == Less
  {
    if a != [] && a[0] == b[0] && b[0] == c[0] {
      CompareNamesTransitive(a[1..], b[1..], c[1..]);
    }
  }

  /** Path::cmp: lexicographic comparison of the component sequences. */
  function ComparePaths(a: Path, b: Path): (r: Ordering)
    ensures r == Equal <==> a == b
  {
    if a == [] then (if b == [] then Equal else Less)
    else if b == [] then Greater
    else match CompareNames(a[0], b[0])
      case Equal =>
        var r := ComparePaths(a[1..], b[1..]);
        assert r == Equal ==> a == [a[0]] + a[1..] && b == [b[0]] + b[1..];
        r
      case other => other
  }

  lemma {:induction false} ComparePathsReverse(a: Path, b: Path)
    ensures ComparePaths(b, a) == Reverse(ComparePaths(a, b))
  {
    if a != [] && b != [] {
      CompareNamesReverse(a[0], b[0]);
      if a[0] == b[0] {
        ComparePathsReverse(a[1..], b[1..]);
      }
    }
  }

  lemma {:induction false} ComparePathsTransitive(a: Path, b: Path, c: Path)
    requires ComparePaths(a, b) == Less && ComparePaths(b, c) == Less
    ensures ComparePaths(a, c) == Less
  {
    if a != [] {
      if a[0] == b[0] && b[0] == c[0] {
        ComparePathsTransitive(a[1..], b[1..], c[1..]);
      } else if a[0] == b[0] {
        assert CompareNames(a[0], c[0]) == Less;
      } else if b[0] == c[0] {
        assert CompareNames(a[0], c[0]) == Less;
      } else {
        CompareNamesTransitive(a[0], b[0], c[0]);
      }
    }
  }

  /** A regular file seen by a scan. */
  datatype File = File(path: Path, lastModDate: Timestamp)

  /** Ord::cmp for File: the path alone decides, whatever the dates. */
  function Cmp(a: File, b: File): (r: Ordering)
    ensures r == Equal <==> a.path == b.path
  {
    ComparePaths(a.path, b.path)
  }

  /** PartialOrd::partial_cmp for File, which defers to cmp. */
  function PartialCmp(a: File, b: File): (r: Option<Ordering>)
    ensures r != None
    ensures r.value == Equal <==> a.path == b.path
  {
    Some(Cmp(a, b))
  }

  /** PartialEq::eq for File: path and modification date, which is exactly equality of the record. */
  function Eq(a: File, b: File): (r: bool)
    ensures r <==> a == b
  {
    a.path == b.path && a.lastModDate == b.lastModDate
  }

  /** cmp is antisymmetric: swapping the operands reverses the answer. */
  lemma CmpReverse(a: File, b: File)
    ensures Cmp(b, a) == Reverse(Cmp(a, b))
  {
    ComparePathsReverse(a.path, b.path);
  }

  /** cmp is transitive, so File is totally ordered by path. */
  lemma CmpTransitive(a: File, b: File, c: File)
    requires Cmp(a, b) == Less && Cmp(b, c) == Less
    ensures Cmp(a, c) == Less
  {
    ComparePathsTransitive(a.path, b.path, c.path);
  }

  /** partial_cmp never answers None and is antisymmetric and transitive: a total order. */
  lemma PartialCmpIsTotalOrder(a: File, b: File, c: File)
    ensures PartialCmp(a, b).Some?
    ensures PartialCmp(b, a) == Some(Reverse(PartialCmp(a, b).value))
    ensures PartialCmp(a, b) == Some(Less) && PartialCmp(b, c) == Some(Less) ==> PartialCmp(a, c) == Some(Less)
    ensures PartialCmp(a, b) == Some(Equal) <==> a.path == b.path
  {
    CmpReverse(a, b);
    if Cmp(a, b) == Less && Cmp(b, c) == Less {
      CmpTransitive(a, b, c);
    }
  }

  /** eq implies cmp == Equal; the converse fails when the dates differ. */
  lemma EqRefinesCmp(a: File, b: File)
    ensures Eq(a, b) ==> Cmp(a, b) == Equal
    ensures a.path == b.path && a.lastModDate != b.lastModDate ==> Cmp(a, b) == Equal && !Eq(a, b)
  {
  }

  /** Kinds of change a scan reports. */
  datatype EventType = NEW | MOD | DEL

  /** Display for EventType prints the variant's name through its Debug form. */
  function Display(t: EventType): (s: string)
    ensures |s| == 3
  {
    match t
    case NEW => "NEW"
    case MOD => "MOD"
    case DEL => "DEL"
  }

  /** Distinct event kinds are displayed differently. */
  lemma DisplayInjective(a: EventType, b: EventType)
    ensures Display(a) == Display(b) <==> a == b
  {
    if a != b {
      assert Display(a)[0] != Display(b)[0];
    }
  }

  /** A change event: its kind and the record it concerns. */
  datatype Event = Event(evType: EventType, file: File)
}
