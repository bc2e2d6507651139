/**
 Model of bytesutil/sort.go: sorting the '\n'-separated lines of a string in
 Go's byte-wise string order. Go's sort.Strings is modelled by an insertion
 sort; any correct sort gives the same result, because equal strings cannot be
 told apart and the sorted permutation of a multiset is unique.
 */
module Sort {
  import opened Splitter
  import opened Strings

  /** Ascending in Go's `<` on strings: no element is smaller than one before it. */
  predicate Sorted(s: seq<string>)
  {
    forall i, j :: 0 <= i < j < |s| ==> !Less(s[j], s[i])
  }

  /** `x` put before the first element of `s` that is not smaller than it. */
  function Insert(x: string, s: seq<string>): (r: seq<string>)
    ensures multiset(r) == multiset(s) + multiset{x}
    ensures |r| == |s| + 1
  {
    if |s| == 0 then [x]
    else if Less(s[0], x) then
      assert s == [s[0]] + s[1..];
      [s[0]] + Insert(x, s[1..])
    else [x] + s
  }

  /** Go's sort.Strings. */
  function SortStrings(lines: seq<string>): (r: seq<string>)
    ensures multiset(r) == multiset(lines)
    ensures |r| == |lines|
  {
    if |lines| == 0 then []
    else
      assert lines == [lines[0]] + lines[1..];
      Insert(lines[0], SortStrings(lines[1..]))
  }

  lemma {:induction false} InsertSorted(x: string, s: seq<string>)
    requires Sorted(s)
    ensures Sorted(Insert(x, s))
  {
    if |s| > 0 {
      if Less(s[0], x) {
        InsertSorted(x, s[1..]);
        var r := Insert(x, s[1..]);
        forall j | 0 <= j < |r| ensures !Less(r[j], s[0]) {
          assert r[j] in multiset(r);
          if r[j] == x {
            LessAsymmetric(s[0], x);
          } else {
            assert r[j] in multiset(s[1..]);
            var k :| 0 <= k < |s[1..]| && s[1..][k] == r[j];
            assert s[k + 1] == r[j];
          }
        }
      } else {
        LessTotal(s[0], x);
        forall j | 0 <= j < |s| ensures !Less(s[j], x) {
          if Less(s[j], x) {
            if x != s[0] {
              LessTransitive(s[j], x, s[0]);
            }
          }
        }
      }
    }
  }

  /** The sort yields a sorted permutation of its input. */
  lemma {:induction false} SortStringsSorted(lines: seq<string>)
    ensures Sorted(SortStrings(lines))
  {
    if |lines| > 0 {
      SortStringsSorted(lines[1..]);
      InsertSorted(lines[0], SortStrings(lines[1..]));
    }
  }

  /** Sorted input is returned unchanged. */
  lemma {:induction false} SortStringsOfSorted(lines: seq<string>)
    requires Sorted(lines)
    ensures SortStrings(lines) == lines
  {
    if |lines| > 0 {
      assert Sorted(lines[1..]);
      SortStringsOfSorted(lines[1..]);
      if |lines| > 1 {
        assert !Less(lines[1], lines[0]);
        assert lines[1..][0] == lines[1];
      }
    }
  }

  /** Go's SortLines: split at '\n', sort, join with '\n'. */
  function SortLines(s: string): string
  {
    Join(SortStrings(Segments(s, '\n')), '\n')
  }

  /** Go's SortLinesAndTrimSpace: the sorted lines without leading and trailing white space. */
  function SortLinesAndTrimSpace(s: string): (r: string)
    ensures var sorted := SortLines(s);
      LeadingSpace(sorted) + |r| <= |sorted| && r == sorted[LeadingSpace(sorted)..LeadingSpace(sorted) + |r|]
    ensures var sorted := SortLines(s);
      (forall k :: 0 <= k < LeadingSpace(sorted) ==> IsSpace(sorted[k])) &&
      (forall k :: LeadingSpace(sorted) + |r| <= k < |sorted| ==> IsSpace(sorted[k]))
    ensures |r| > 0 ==> !IsSpace(r[0]) && !IsSpace(r[|r| - 1])
  {
    TrimSpaceTrims(SortLines(s));
    TrimSpace(SortLines(s))
  }

  lemma {:induction false} PermutationSeparatorFree(a: seq<string>, b: seq<string>, sep: char)
    requires multiset(a) == multiset(b) && SeparatorFree(b, sep)
    ensures SeparatorFree(a, sep)
  {
    forall k | 0 <= k < |a| ensures sep !in a[k] {
      assert a[k] in multiset(b);
    }
  }

  /**
   The lines of the result are the lines of the input, sorted: the same lines
   with the same multiplicities, as many of them, and as many '\n'.
   */
  lemma {:induction false} SortLinesLines(s: string)
    ensures multiset(Segments(SortLines(s), '\n')) == multiset(Segments(s, '\n'))
    ensures Sorted(Segments(SortLines(s), '\n'))
    ensures |Segments(SortLines(s), '\n')| == |Segments(s, '\n')|
    ensures multiset(SortLines(s))['\n'] == multiset(s)['\n']
  {
    var lines := Segments(s, '\n');
    var sorted := SortStrings(lines);
    SegmentsSeparatorFree(s, '\n');
    PermutationSeparatorFree(sorted, lines, '\n');
    SegmentsOfJoin(sorted, '\n');
    SortStringsSorted(lines);
    JoinCount(sorted, '\n');
    SegmentsCount(s, '\n');
  }

  /** Sorting sorted lines changes nothing. */
  lemma {:induction false} SortLinesOfSorted(s: string)
    requires Sorted(Segments(s, '\n'))
    ensures SortLines(s) == s
  {
    SortStringsOfSorted(Segments(s, '\n'));
    JoinSegments(s, '\n');
  }

  /** A single line is returned unchanged. */
  lemma {:induction false} SortLinesSingleLine(s: string)
    requires '\n' !in s
    ensures SortLines(s) == s
  {
    IndexOfAbsent(s, '\n');
    assert Segments(s, '\n') == [s];
  }

  /** Sorting is idempotent. */
  lemma {:induction false} SortLinesIdempotent(s: string)
    ensures SortLines(SortLines(s)) == SortLines(s)
  {
    SortLinesLines(s);
    SortLinesOfSorted(SortLines(s));
  }
}
