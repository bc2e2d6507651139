/**
 Model of FilePathsByHierarchy in files.go: a slice of file paths that Go's
 sort.Sort orders through Len, Swap and Less. The slice is modelled by a
 class holding the backing array, which Swap updates in place.
 */
module Files {
  import opened Splitter
  import opened Strings

  /** os.PathSeparator on the platforms this model covers. */
  const PathSeparator: char := '/'

  /** The components of a path, as strings.Split at the path separator yields them. */
  function Components(p: string): seq<string>
  {
    Segments(p, PathSeparator)
  }

  /**
   The order that Less decides: a path with fewer components comes first; for
   equally many components it is enough that SOME component is smaller than
   the component at the same position in the other path.
   */
  predicate HierarchyLess(a: string, b: string)
  {
    var ca := Components(a);
    var cb := Components(b);
    if |ca| != |cb| then |ca| < |cb|
    else exists k :: 0 <= k < |ca| && Less(ca[k], cb[k])
  }

  class FilePathsByHierarchy {
    const paths: array<string>

    /** Go's conversion FilePathsByHierarchy(s) of the slice `s`. */
    constructor (s: array<string>)
      ensures paths == s
    {
      paths := s;
    }

    /** The number of paths. */
    function Len(): (n: nat)
      ensures n == paths.Length
    {
      paths.Length
    }

    /** Exchanges the paths at `i` and `j` and leaves every other path where it was. */
    method Swap(i: nat, j: nat)
      requires i < paths.Length && j < paths.Length
      modifies paths
      ensures paths[i] == old(paths[j]) && paths[j] == old(paths[i])
      ensures forall k :: 0 <= k < paths.Length && k != i && k != j ==> paths[k] == old(paths[k])
      ensures multiset(paths[..]) == multiset(old(paths[..]))
    {
      paths[i], paths[j] := paths[j], paths[i];
    }

    /** Whether the path at `i` sorts before the path at `j`. */
    method Less(i: nat, j: nat) returns (less: bool)
      requires i < paths.Length && j < paths.Length
      ensures less == HierarchyLess(paths[i], paths[j])
    {
      var si := Split(paths[i], PathSeparator);
      var sj := Split(paths[j], PathSeparator);
      if |si| != |sj| {
        return |si| < |sj|;
      }
      var k := 0;
      while k < |si|
        invariant 0 <= k <= |si|
        invariant forall m :: 0 <= m < k ==> !Strings.Less(si[m], sj[m])
      {
        if Strings.Less(si[k], sj[k]) {
          return true;
        }
        k := k + 1;
      }
      return false;
    }
  }

  /** No path sorts before itself. */
  lemma {:induction false} HierarchyLessIrreflexive(a: string)
    ensures !HierarchyLess(a, a)
  {
    var c := Components(a);
    forall k | 0 <= k < |c| ensures !Less(c[k], c[k]) {
      LessIrreflexive(c[k]);
    }
  }

  /** A path with fewer separators sorts before a path with more. */
  lemma {:induction false} FewerSeparatorsFirst(a: string, b: string)
    requires multiset(a)[PathSeparator] < multiset(b)[PathSeparator]
    ensures HierarchyLess(a, b) && !HierarchyLess(b, a)
  {
    SegmentsCount(a, PathSeparator);
    SegmentsCount(b, PathSeparator);
  }

  /** A directory sorts before every path inside it. */
  lemma {:induction false} DirectoryFirst(dir: string, name: string)
    ensures HierarchyLess(dir, dir + [PathSeparator] + name)
  {
    SegmentsAppend(dir, PathSeparator, name);
  }

  lemma {:induction false} ComponentsOfTwo(x: char, y: char)
    requires x != PathSeparator && y != PathSeparator
    ensures Components([x, PathSeparator, y]) == [[x], [y]]
  {
    SegmentsAppend([x], PathSeparator, [y]);
    IndexOfAbsent([x], PathSeparator);
    IndexOfAbsent([y], PathSeparator);
    assert [x] + [PathSeparator] + [y] == [x, PathSeparator, y];
  }

  /**
   The order is not asymmetric: "a/z" sorts before "b/a" (first component)
   and "b/a" before "a/z" (second component), so sort.Sort gets no consistent
   order for such paths.
   */
  lemma {:induction false} HierarchyLessNotAsymmetric()
    ensures HierarchyLess("a/z", "b/a") && HierarchyLess("b/a", "a/z")
  {
    ComponentsOfTwo('a', 'z');
    ComponentsOfTwo('b', 'a');
    var az, ba := Components("a/z"), Components("b/a");
    assert az == ["a", "z"] && ba == ["b", "a"];
    assert Less(az[0], ba[0]);
    assert Less(ba[1], az[1]);
  }

  /**
   Components compared at the first position where they differ, as a
   lexicographic order on equally long sequences of components.
   */
  predicate ComponentsLess(ca: seq<string>, cb: seq<string>)
    requires |ca| == |cb|
  {
    |ca| > 0 && if ca[0] != cb[0] then Less(ca[0], cb[0]) else ComponentsLess(ca[1..], cb[1..])
  }

  /** The hierarchy order with the loop stopping at the first differing component. */
  predicate FirstDifferenceLess(a: string, b: string)
  {
    var ca := Components(a);
    var cb := Components(b);
    if |ca| != |cb| then |ca| < |cb| else ComponentsLess(ca, cb)
  }

  lemma {:induction false} ComponentsLessAsymmetric(ca: seq<string>, cb: seq<string>)
    requires |ca| == |cb| && ComponentsLess(ca, cb)
    ensures !ComponentsLess(cb, ca)
  {
    if ca[0] != cb[0] {
      LessAsymmetric(ca[0], cb[0]);
    } else {
      ComponentsLessAsymmetric(ca[1..], cb[1..]);
    }
  }

  lemma {:induction false} ComponentsLessTransitive(ca: seq<string>, cb: seq<string>, cc: seq<string>)
    requires |ca| == |cb| == |cc| && ComponentsLess(ca, cb) && ComponentsLess(cb, cc)
    ensures ComponentsLess(ca, cc)
  {
    if ca[0] != cb[0] && cb[0] != cc[0] {
      LessTransitive(ca[0], cb[0], cc[0]);
      if ca[0] == cc[0] {
        LessAsymmetric(ca[0], cb[0]);
      }
    } else if ca[0] == cb[0] && cb[0] == cc[0] {
      ComponentsLessTransitive(ca[1..], cb[1..], cc[1..]);
    }
  }

  lemma {:induction false} ComponentsLessIrreflexive(c: seq<string>)
    ensures !ComponentsLess(c, c)
  {
    if |c| > 0 {
      ComponentsLessIrreflexive(c[1..]);
    }
  }

  /** Stopping at the first differing component gives a strict order that sort.Sort can rely on. */
  lemma {:induction false} FirstDifferenceLessStrictOrder(a: string, b: string, c: string)
    ensures !FirstDifferenceLess(a, a)
    ensures FirstDifferenceLess(a, b) ==> !FirstDifferenceLess(b, a)
    ensures FirstDifferenceLess(a, b) && FirstDifferenceLess(b, c) ==> FirstDifferenceLess(a, c)
  {
    var ca, cb, cc := Components(a), Components(b), Components(c);
    ComponentsLessIrreflexive(ca);
    if FirstDifferenceLess(a, b) && |ca| == |cb| {
      ComponentsLessAsymmetric(ca, cb);
    }
    if FirstDifferenceLess(a, b) && FirstDifferenceLess(b, c) && |ca| == |cb| == |cc| {
      ComponentsLessTransitive(ca, cb, cc);
    }
  }

  /** For the paths that show the asymmetry, the corrected order decides one way only. */
  lemma {:induction false} FirstDifferenceLessExample()
    ensures FirstDifferenceLess("a/z", "b/a") && !FirstDifferenceLess("b/a", "a/z")
  {
    ComponentsOfTwo('a', 'z');
    ComponentsOfTwo('b', 'a');
    assert Less("a", "b");
    LessAsymmetric("a", "b");
  }
}
