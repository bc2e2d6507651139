/**
 Model of bytesutil/lines.go: the lengths of the lines of a byte slice, and
 prefixing every non-empty line.
 */
module Lines {
  import opened Bytes
  import opened Splitter

  /** Length of a line that a '\n' ended, not counting a '\r' right before that '\n'. */
  function EndedLineLength(line: seq<byte>): nat
  {
    if |line| > 0 && line[|line| - 1] == CR then |line| - 1 else |line|
  }

  /** Number of "\r\n" pairs in `d`. */
  function CountCRLF(d: seq<byte>): nat
  {
    if |d| < 2 then 0
    else (if d[0] == CR && d[1] == NL then 1 else 0) + CountCRLF(d[1..])
  }

  function Sum(s: seq<nat>): nat
  {
    if |s| == 0 then 0 else s[0] + Sum(s[1..])
  }

  lemma {:induction false} CountCRLFAppend(a: seq<byte>, b: seq<byte>)
    ensures CountCRLF(a + b) == CountCRLF(a) + CountCRLF(b)
      + (if |a| > 0 && |b| > 0 && a[|a| - 1] == CR && b[0] == NL then 1 else 0)
  {
    if |a| == 0 {
      assert a + b == b;
    } else if |a| == 1 {
      if |b| > 0 {
        assert (a + b)[1..] == b;
      }
    } else {
      assert (a + b)[1..] == a[1..] + b;
      CountCRLFAppend(a[1..], b);
    }
  }

  lemma {:induction false} CountCRLFNoNewline(d: seq<byte>)
    requires NL !in d
    ensures CountCRLF(d) == 0
  {
    if |d| >= 2 {
      assert d[1] != NL;
      assert NL !in d[1..];
      CountCRLFNoNewline(d[1..]);
    }
  }

  /**
   The entries that the loop of the source appends after the leading 0, from
   `rest` on: one per line that a '\n' ends, then the length of what follows
   the last '\n'.
   */
  function Lengths(rest: seq<byte>): (r: seq<nat>)
    ensures |r| >= 1
    decreases |rest|
  {
    var i := IndexOf(rest, NL);
    if i == |rest| then [|rest|] else [EndedLineLength(rest[..i])] + Lengths(rest[i + 1..])
  }

  lemma {:induction false} LengthsCount(d: seq<byte>)
    ensures |Lengths(d)| == |Segments(d, NL)|
    decreases |d|
  {
    var i := IndexOf(d, NL);
    if i == |d| {
      assert |Lengths(d)| == 1 && |Segments(d, NL)| == 1;
    } else {
      var rest := d[i + 1..];
      LengthsCount(rest);
      assert |Lengths(d)| == 1 + |Lengths(rest)| by {
        LengthsCons(d, i);
      }
      assert |Segments(d, NL)| == 1 + |Segments(rest, NL)| by {
        SegmentsUnfold(d, NL);
      }
    }
  }

  lemma {:induction false} LengthsLast(d: seq<byte>)
    ensures Lengths(d)[|Lengths(d)| - 1] == |Segments(d, NL)[|Segments(d, NL)| - 1]|
  {
    LengthsCount(d);
    LengthsLastAt(d, |Lengths(d)| - 1);
  }

  lemma {:induction false} LengthsLastAt(d: seq<byte>, k: nat)
    requires k == |Lengths(d)| - 1 == |Segments(d, NL)| - 1
    ensures Lengths(d)[k] == |Segments(d, NL)[k]|
    decreases |d|, 1
  {
    if IndexOf(d, NL) == |d| {
      assert Lengths(d) == [|d|] && Segments(d, NL) == [d];
    } else {
      LengthsLastStep(d, IndexOf(d, NL), k);
    }
  }

  lemma {:induction false} LengthsLastStep(d: seq<byte>, i: nat, k: nat)
    requires i == IndexOf(d, NL) && i < |d|
    requires k == |Lengths(d)| - 1 == |Segments(d, NL)| - 1
    ensures Lengths(d)[k] == |Segments(d, NL)[k]|
    decreases |d|, 0
  {
    var rest := d[i + 1..];
    var line, lines := d[..i], Segments(rest, NL);
    assert |Lengths(d)| == 1 + |Lengths(rest)| by {
      LengthsCons(d, i);
    }
    assert |Segments(d, NL)| == 1 + |lines| by {
      SegmentsUnfold(d, NL);
    }
    LengthsLastAt(rest, k - 1);
    assert Lengths(d)[k] == Lengths(rest)[k - 1] by {
      LengthsCons(d, i);
      ConsAt(EndedLineLength(line), Lengths(rest), k);
    }
    assert Segments(d, NL)[k] == lines[k - 1] by {
      SegmentsUnfold(d, NL);
      ConsAt(line, lines, k);
    }
  }

  lemma {:induction false} LengthsEntries(d: seq<byte>, k: nat)
    requires k < |Lengths(d)| - 1 && |Lengths(d)| == |Segments(d, NL)|
    ensures Lengths(d)[k] == EndedLineLength(Segments(d, NL)[k])
    decreases |d|, 1
  {
    var i := IndexOf(d, NL);
    assert i < |d|;
    if k == 0 {
      LengthsEntriesFirst(d, i);
    } else {
      LengthsEntriesStep(d, i, k);
    }
  }

  lemma {:induction false} LengthsEntriesFirst(d: seq<byte>, i: nat)
    requires i == IndexOf(d, NL) && i < |d|
    ensures Lengths(d)[0] == EndedLineLength(Segments(d, NL)[0])
  {
    assert Lengths(d)[0] == EndedLineLength(d[..i]) by {
      LengthsCons(d, i);
    }
    assert Segments(d, NL)[0] == d[..i] by {
      SegmentsUnfold(d, NL);
    }
  }

  lemma {:induction false} LengthsEntriesStep(d: seq<byte>, i: nat, k: nat)
    requires i == IndexOf(d, NL) && i < |d|
    requires 0 < k < |Lengths(d)| - 1 && |Lengths(d)| == |Segments(d, NL)|
    ensures Lengths(d)[k] == EndedLineLength(Segments(d, NL)[k])
    decreases |d|, 0
  {
    var rest := d[i + 1..];
    var line, lines := d[..i], Segments(rest, NL);
    assert |Lengths(d)| == 1 + |Lengths(rest)| by {
      LengthsCons(d, i);
    }
    assert |Segments(d, NL)| == 1 + |lines| by {
      SegmentsUnfold(d, NL);
    }
    LengthsEntries(rest, k - 1);
    assert Lengths(d)[k] == Lengths(rest)[k - 1] by {
      LengthsCons(d, i);
      ConsAt(EndedLineLength(line), Lengths(rest), k);
    }
    assert Segments(d, NL)[k] == lines[k - 1] by {
      SegmentsUnfold(d, NL);
      ConsAt(line, lines, k);
    }
  }

  lemma {:induction false} EndedLineLengthAt(d: seq<byte>, i: nat)
    requires i <= |d|
    ensures EndedLineLength(d[..i]) == if i > 0 && d[i - 1] == CR then i - 1 else i
  {
    if i > 0 {
      assert d[..i][i - 1] == d[i - 1];
    }
  }

  lemma {:induction false} LengthsCons(d: seq<byte>, i: nat)
    requires i == IndexOf(d, NL) && i < |d|
    ensures Lengths(d) == [EndedLineLength(d[..i])] + Lengths(d[i + 1..])
  {
  }

  /** One entry per line: a line ended by '\n' without a '\r' right before it, the last line with all its bytes. */
  lemma {:induction false} LengthsOfLines(d: seq<byte>)
    ensures |Lengths(d)| == |Segments(d, NL)|
    ensures forall k :: 0 <= k < |Lengths(d)| - 1 ==> Lengths(d)[k] == EndedLineLength(Segments(d, NL)[k])
    ensures Lengths(d)[|Lengths(d)| - 1] == |Segments(d, NL)[|Segments(d, NL)| - 1]|
  {
    LengthsCount(d);
    LengthsLast(d);
    forall k | 0 <= k < |Lengths(d)| - 1 ensures Lengths(d)[k] == EndedLineLength(Segments(d, NL)[k]) {
      LengthsEntries(d, k);
    }
  }

  /** The entries, the newlines and the carriage returns of "\r\n" pairs account for every byte. */
  lemma {:induction false} LengthsAccount(d: seq<byte>)
    ensures Sum(Lengths(d)) + multiset(d)[NL] + CountCRLF(d) == |d|
    decreases |d|
  {
    var i := IndexOf(d, NL);
    var line := d[..i];
    assert NL !in line;
    assert multiset(line)[NL] == 0;
    CountCRLFNoNewline(line);
    if i == |d| {
      assert line == d;
      assert Lengths(d) == [|d|];
    } else {
      var rest := d[i + 1..];
      var ended := line + [NL];
      LengthsAccount(rest);
      assert d == ended + rest by {
        SplitAt(d, i);
      }
      assert Sum(Lengths(d)) == EndedLineLength(line) + Sum(Lengths(rest)) by {
        assert Lengths(d) == [EndedLineLength(line)] + Lengths(rest);
      }
      assert multiset(d)[NL] == 1 + multiset(rest)[NL];
      assert CountCRLF(ended) + EndedLineLength(line) == |line| by {
        CountCRLFAppend(line, [NL]);
      }
      assert CountCRLF(d) == CountCRLF(ended) + CountCRLF(rest) by {
        CountCRLFAppend(ended, rest);
      }
    }
  }

  /**
   The loop of the source: entry 0 is always 0, then one entry per line
   (`Lengths`, whose meaning `LengthsOfLines` and `LengthsAccount` state).
   */
  method LineLengths(data: seq<byte>) returns (ls: seq<nat>)
    ensures ls == [0] + Lengths(data)
    ensures |ls| == multiset(data)[NL] + 2 == |Segments(data, NL)| + 1
    ensures ls[0] == 0
    ensures forall k :: 1 <= k < |ls| - 1 ==> ls[k] == EndedLineLength(Segments(data, NL)[k - 1])
    ensures ls[|ls| - 1] == |Segments(data, NL)[|ls| - 2]|
    ensures Sum(ls) + multiset(data)[NL] + CountCRLF(data) == |data|
  {
    ls := [0];
    var rest := data;
    while true
      invariant ls + Lengths(rest) == [0] + Lengths(data)
      decreases |rest|
    {
      var i := IndexOf(rest, NL);
      if i == |rest| {
        ls := ls + [|rest|];
        break;
      }
      LengthsCons(rest, i);
      EndedLineLengthAt(rest, i);
      ghost var before := ls;
      if i > 0 && rest[i - 1] == CR {
        ls := ls + [i - 1];
      } else {
        ls := ls + [i];
      }
      assert ls == before + [EndedLineLength(rest[..i])];
      ConcatAssociative(before, [EndedLineLength(rest[..i])], Lengths(rest[i + 1..]));
      rest := rest[i + 1..];
    }
    LeadingZeroLengths(data);
  }

  lemma {:induction false} LeadingZeroLengths(data: seq<byte>)
    ensures var ls := [0] + Lengths(data);
      |ls| == multiset(data)[NL] + 2 == |Segments(data, NL)| + 1 &&
      (forall k :: 1 <= k < |ls| - 1 ==> ls[k] == EndedLineLength(Segments(data, NL)[k - 1])) &&
      ls[|ls| - 1] == |Segments(data, NL)[|ls| - 2]| &&
      Sum(ls) + multiset(data)[NL] + CountCRLF(data) == |data|
  {
    LengthsOfLines(data);
    LengthsAccount(data);
    SegmentsCount(data, NL);
    var ls := [0] + Lengths(data);
    assert Sum(ls) == Sum(Lengths(data));
    forall k | 1 <= k < |ls| - 1 ensures ls[k] == EndedLineLength(Segments(data, NL)[k - 1]) {
      assert ls[k] == Lengths(data)[k - 1];
    }
  }

  /** A line as PrefixLines writes it: the prefix and the line when the line is non-empty, nothing otherwise. */
  function Prefixed(line: seq<byte>, prefix: seq<byte>): seq<byte>
  {
    if |line| > 0 then prefix + line else []
  }

  function PrefixAll(lines: seq<seq<byte>>, prefix: seq<byte>): (r: seq<seq<byte>>)
    ensures |r| == |lines|
    ensures forall k :: 0 <= k < |lines| ==> r[k] == Prefixed(lines[k], prefix)
  {
    if |lines| == 0 then [] else [Prefixed(lines[0], prefix)] + PrefixAll(lines[1..], prefix)
  }

  /** Index of the first non-empty line, or `|lines|` when every line is empty. */
  function FirstNonEmpty(lines: seq<seq<byte>>): (k: nat)
    ensures k <= |lines|
    ensures forall j :: 0 <= j < k ==> lines[j] == []
    ensures k < |lines| ==> lines[k] != []
  {
    if |lines| == 0 then 0 else if lines[0] != [] then 0 else 1 + FirstNonEmpty(lines[1..])
  }

  /** One step of the loop of PrefixLines: a '\n' once the result is non-empty, then the prefixed line. */
  function Step(result: seq<byte>, line: seq<byte>, prefix: seq<byte>): seq<byte>
  {
    (if |result| > 0 then result + [NL] else result) + Prefixed(line, prefix)
  }

  /** The result the loop of PrefixLines reaches from `result` after handling `lines`. */
  function Fold(result: seq<byte>, lines: seq<seq<byte>>, prefix: seq<byte>): seq<byte>
    decreases |lines|
  {
    if |lines| == 0 then result else Fold(Step(result, lines[0], prefix), lines[1..], prefix)
  }

  /** Once the result is non-empty, every further line is written after a '\n'. */
  lemma {:induction false} FoldNonEmpty(result: seq<byte>, lines: seq<seq<byte>>, prefix: seq<byte>)
    requires result != []
    ensures Fold(result, lines, prefix) == if |lines| == 0 then result else result + [NL] + Join(PrefixAll(lines, prefix), NL)
    decreases |lines|
  {
    if |lines| > 0 {
      var p := Prefixed(lines[0], prefix);
      FoldNonEmpty(result + [NL] + p, lines[1..], prefix);
      if |lines| > 1 {
        assert PrefixAll(lines, prefix)[1..] == PrefixAll(lines[1..], prefix);
      }
    }
  }

  /** Leading empty lines leave the result empty; from the first non-empty line on, the prefixed lines are joined by '\n'. */
  lemma {:induction false} FoldFromEmpty(lines: seq<seq<byte>>, prefix: seq<byte>)
    ensures var k := FirstNonEmpty(lines);
      Fold([], lines, prefix) == if k == |lines| then [] else Join(PrefixAll(lines[k..], prefix), NL)
    decreases |lines|
  {
    if |lines| > 0 {
      if lines[0] == [] {
        FoldFromEmpty(lines[1..], prefix);
        assert Fold([], lines, prefix) == Fold([], lines[1..], prefix) by {
          assert Step([], lines[0], prefix) == [];
        }
        var k := FirstNonEmpty(lines);
        assert k == 1 + FirstNonEmpty(lines[1..]);
        if k < |lines| {
          assert lines[k..] == lines[1..][k - 1..];
        }
      } else {
        assert lines[0..] == lines;
        FoldFromNonEmpty(lines, prefix);
      }
    }
  }

  /** From a non-empty first line on, the prefixed lines are joined by '\n'. */
  lemma {:induction false} FoldFromNonEmpty(lines: seq<seq<byte>>, prefix: seq<byte>)
    requires |lines| > 0 && lines[0] != []
    ensures Fold([], lines, prefix) == Join(PrefixAll(lines, prefix), NL)
  {
    var first := prefix + lines[0];
    assert Fold([], lines, prefix) == Fold(first, lines[1..], prefix) by {
      assert Step([], lines[0], prefix) == first;
    }
    FoldNonEmpty(first, lines[1..], prefix);
    assert PrefixAll(lines, prefix) == [first] + PrefixAll(lines[1..], prefix);
    if |lines| > 1 {
      JoinCons(first, PrefixAll(lines[1..], prefix), NL);
    }
  }

  /**
   The loop of the source. A '\n' is written before a line only once the result
   is non-empty, so the leading empty lines vanish; from the first non-empty
   line on, the lines are kept, the non-empty ones prefixed, joined by '\n'.
   */
  method PrefixLines(data: seq<byte>, prefix: seq<byte>) returns (result: seq<byte>)
    ensures var lines := Segments(data, NL);
      var k := FirstNonEmpty(lines);
      result == if k == |lines| then [] else Join(PrefixAll(lines[k..], prefix), NL)
  {
    var lines := Split(data, NL);
    result := [];
    var i := 0;
    while i < |lines|
      invariant 0 <= i <= |lines|
      invariant result == Fold([], lines[..i], prefix)
    {
      var l := lines[i];
      ghost var before := result;
      if |result| > 0 {
        result := result + [NL];
      }
      if |l| > 0 {
        result := result + prefix + l;
      }
      assert result == Fold([], lines[..i + 1], prefix) by {
        assert result == Step(before, l, prefix);
        FoldPrefixStep(lines, i, prefix);
      }
      i := i + 1;
    }
    assert result == Fold([], lines, prefix) by {
      assert lines[..i] == lines;
    }
    FoldFromEmpty(lines, prefix);
  }

  /** Handling one more line is one more step. */
  lemma {:induction false} FoldSnoc(result: seq<byte>, lines: seq<seq<byte>>, line: seq<byte>, prefix: seq<byte>)
    ensures Fold(result, lines + [line], prefix) == Step(Fold(result, lines, prefix), line, prefix)
    decreases |lines|
  {
    if |lines| == 0 {
      assert ([] + [line])[1..] == [];
    } else {
      assert (lines + [line])[0] == lines[0] && (lines + [line])[1..] == lines[1..] + [line];
      FoldSnoc(Step(result, lines[0], prefix), lines[1..], line, prefix);
    }
  }

  lemma {:induction false} FoldPrefixStep(lines: seq<seq<byte>>, i: nat, prefix: seq<byte>)
    requires i < |lines|
    ensures Fold([], lines[..i + 1], prefix) == Step(Fold([], lines[..i], prefix), lines[i], prefix)
  {
    assert lines[..i + 1] == lines[..i] + [lines[i]];
    FoldSnoc([], lines[..i], lines[i], prefix);
  }

  /** When the first line is not empty and the prefix has no '\n', the result has as many '\n' as the input. */
  lemma {:induction false} PrefixLinesKeepsLineCount(data: seq<byte>, prefix: seq<byte>)
    requires NL !in prefix
    requires Segments(data, NL)[0] != []
    ensures multiset(Join(PrefixAll(Segments(data, NL), prefix), NL))[NL] == multiset(data)[NL]
  {
    var lines := Segments(data, NL);
    SegmentsSeparatorFree(data, NL);
    var p := PrefixAll(lines, prefix);
    forall j | 0 <= j < |p| ensures NL !in p[j] {
      assert NL !in lines[j];
    }
    JoinCount(p, NL);
    SegmentsCount(data, NL);
  }
}
