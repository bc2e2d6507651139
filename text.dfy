/**
 Model of the text helpers of bytesutil/text.go: removing the indentation of
 an indented multi-line literal, prefixing continuation lines, the word after
 a match, and extracting guarded blocks of lines.
 */
module Text {
  import opened Wrappers
  import opened Bytes
  import opened Splitter
  import opened Strings
  import opened Lines

  // ---------------------------------------------------------------------------
  // TrimIndentations

  /** The three ways TrimIndentations rejects its input (the source panics). */
  datatype TrimError = MissingStartingNewline | LastLine | MissingIndentation

  /** Index of the first byte at or after `i` that is not a '\n'. */
  function SkipNewlines(s: seq<byte>, i: nat): (j: nat)
    requires i <= |s|
    ensures i <= j <= |s|
    ensures forall k :: i <= k < j ==> s[k] == NL
    ensures j < |s| ==> s[j] != NL
    decreases |s| - i
  {
    if i < |s| && s[i] == NL then SkipNewlines(s, i + 1) else i
  }

  /** Number of tabs in a row starting at `i`. */
  function TabRun(s: seq<byte>, i: nat): (n: nat)
    requires i <= |s|
    ensures i + n <= |s|
    ensures forall k :: i <= k < i + n ==> s[k] == TAB
    ensures i + n < |s| ==> s[i + n] != TAB
    decreases |s| - i
  {
    if i < |s| && s[i] == TAB then 1 + TabRun(s, i + 1) else 0
  }

  /** `n` tab bytes. */
  function Tabs(n: nat): (r: seq<byte>)
    ensures |r| == n && forall k :: 0 <= k < n ==> r[k] == TAB
  {
    seq(n, _ => TAB)
  }

  /** The last line is a '\n' followed by exactly `n - 1` tabs. */
  predicate LastLineIndented(s: seq<byte>, n: nat)
    requires 1 <= n < |s|
  {
    s[|s| - n] == NL && forall k :: |s| - n < k < |s| ==> s[k] == TAB
  }

  /**
   The result the line loop of TrimIndentations reaches from the buffer `out`
   after handling `lines`: an empty line becomes a lone '\n', any other line
   loses its first `n` bytes (tabs or not) and gets a '\n'; a non-empty line
   shorter than `n` is rejected.
   */
  function DedentFrom(out: seq<byte>, lines: seq<seq<byte>>, n: nat): Result<seq<byte>, TrimError>
    decreases |lines|
  {
    if |lines| == 0 then Ok(out)
    else if |lines[0]| == 0 then DedentFrom(out + [NL], lines[1..], n)
    else if |lines[0]| < n then Err(MissingIndentation)
    else DedentFrom(out + lines[0][n..] + [NL], lines[1..], n)
  }

  /**
   What TrimIndentations returns. Empty input is returned as is; other input
   must start with '\n'. The indentation is the number of tabs after the
   leading newlines; without indentation the first byte is dropped. Otherwise
   the last line must be a '\n' and one tab less, and every line between the
   first '\n' and that last line is dedented.
   */
  function TrimmedIndentations(s: seq<byte>): (r: Result<seq<byte>, TrimError>)
    ensures |s| == 0 ==> r == Ok(s)
    ensures |s| > 0 && s[0] != NL ==> r == Err(MissingStartingNewline)
    ensures r.Ok? && |s| > 0 ==> s[0] == NL
    ensures |s| > 0 && s[0] == NL && TabRun(s, SkipNewlines(s, 1)) == 0 ==> r == Ok(s[1..])
    ensures r == Err(LastLine) <==>
      |s| > 0 && s[0] == NL && TabRun(s, SkipNewlines(s, 1)) >= 1 && !LastLineIndented(s, TabRun(s, SkipNewlines(s, 1)))
    ensures r == Err(MissingIndentation) ==>
      |s| > 0 && s[0] == NL && TabRun(s, SkipNewlines(s, 1)) >= 1 && LastLineIndented(s, TabRun(s, SkipNewlines(s, 1)))
  {
    if |s| == 0 then Ok(s)
    else if s[0] != NL then Err(MissingStartingNewline)
    else
      var n := TabRun(s, SkipNewlines(s, 1));
      if n == 0 then Ok(s[1..])
      else if !LastLineIndented(s, n) then Err(LastLine)
      else
        DedentAccepts([], Segments(s[1..|s| - n], NL), n);
        DedentFrom([], Segments(s[1..|s| - n], NL), n)
  }

  /** The first two loops of the source: skip the newlines after the first byte, then count the tabs. */
  method Indentation(s: seq<byte>) returns (n: nat)
    requires |s| > 0
    ensures n == TabRun(s, SkipNewlines(s, 1))
  {
    var i := 1;
    while i < |s| && s[i] == NL
      invariant 1 <= i <= |s|
      invariant SkipNewlines(s, i) == SkipNewlines(s, 1)
    {
      i := i + 1;
    }
    ghost var start := i;
    n := 0;
    while i < |s|
      invariant start <= i <= |s| && i == start + n
      invariant n + TabRun(s, i) == TabRun(s, start)
    {
      if s[i] != TAB {
        break;
      }
      n := n + 1;
      i := i + 1;
    }
  }

  /** The check of the last line: a '\n' at `|s| - n`, then only tabs. */
  method CheckLastLine(s: seq<byte>, n: nat) returns (ok: bool)
    requires 1 <= n < |s|
    ensures ok == LastLineIndented(s, n)
  {
    if s[|s| - n] != NL {
      return false;
    }
    var i := |s| - n + 1;
    while i < |s|
      invariant |s| - n + 1 <= i <= |s|
      invariant forall k :: |s| - n < k < i ==> s[k] == TAB
    {
      if s[i] != TAB {
        return false;
      }
      i := i + 1;
    }
    return true;
  }

  /** The line loop of the source over the lines between the first '\n' and the last line. */
  method Dedent(lines: seq<seq<byte>>, n: nat) returns (r: Result<seq<byte>, TrimError>)
    ensures r == DedentFrom([], lines, n)
  {
    var b: seq<byte> := [];
    var k := 0;
    while k < |lines|
      invariant 0 <= k <= |lines|
      invariant DedentFrom(b, lines[k..], n) == DedentFrom([], lines, n)
    {
      var line := lines[k];
      if |line| == 0 {
        b := b + [NL];
      } else {
        if |line| < n {
          return Err(MissingIndentation);
        }
        b := b + line[n..] + [NL];
      }
      assert lines[k..][1..] == lines[k + 1..];
      k := k + 1;
    }
    return Ok(b);
  }

  /** TrimIndentations of the source, with its panics as errors. */
  method TrimIndentations(s: seq<byte>) returns (r: Result<seq<byte>, TrimError>)
    ensures r == TrimmedIndentations(s)
  {
    if |s| == 0 {
      return Ok(s);
    }
    if s[0] != NL {
      return Err(MissingStartingNewline);
    }
    var n := Indentation(s);
    if n == 0 {
      return Ok(s[1..]);
    }
    var ok := CheckLastLine(s, n);
    if !ok {
      return Err(LastLine);
    }
    var lines := Split(s[1..|s| - n], NL);
    r := Dedent(lines, n);
  }

  /** Dedenting fails exactly when some non-empty line is shorter than the indentation, and then only with MissingIndentation. */
  lemma {:induction false} DedentAccepts(out: seq<byte>, lines: seq<seq<byte>>, n: nat)
    ensures DedentFrom(out, lines, n).Ok? <==> forall k :: 0 <= k < |lines| ==> lines[k] == [] || |lines[k]| >= n
    ensures DedentFrom(out, lines, n).Err? ==> DedentFrom(out, lines, n).error == MissingIndentation
    decreases |lines|
  {
    if |lines| > 0 {
      if |lines[0]| == 0 {
        DedentAccepts(out + [NL], lines[1..], n);
      } else if |lines[0]| >= n {
        DedentAccepts(out + lines[0][n..] + [NL], lines[1..], n);
      }
      assert forall k :: 1 <= k < |lines| ==> lines[k] == lines[1..][k - 1];
    }
  }

  /** Dedenting lines that were indented by `n` tabs (empty lines left empty) gives back each line followed by '\n'. */
  lemma {:induction false} DedentIndented(out: seq<byte>, lines: seq<seq<byte>>, n: nat)
    requires |lines| >= 1
    ensures DedentFrom(out, PrefixAll(lines, Tabs(n)), n) == Ok(out + Join(lines, NL) + [NL])
    decreases |lines|
  {
    var indented := PrefixAll(lines, Tabs(n));
    var l := lines[0];
    var next := out + l + [NL];
    if |l| > 0 {
      assert indented[0] == Tabs(n) + l;
      assert |indented[0]| >= n && indented[0][n..] == l;
      assert DedentFrom(out, indented, n) == DedentFrom(out + indented[0][n..] + [NL], indented[1..], n);
    } else {
      assert indented[0] == [];
      assert next == out + [NL];
    }
    assert DedentFrom(out, indented, n) == DedentFrom(next, indented[1..], n);
    if |lines| > 1 {
      assert indented[1..] == PrefixAll(lines[1..], Tabs(n));
      DedentIndented(next, lines[1..], n);
      assert Join(lines, NL) == l + [NL] + Join(lines[1..], NL);
      assert next + Join(lines[1..], NL) + [NL] == out + Join(lines, NL) + [NL];
    } else {
      assert indented[1..] == [];
    }
  }

  /** Once the indentation and the last line are accepted, the result is the dedented inner lines. */
  lemma {:induction false} TrimmedIndentationsDedents(s: seq<byte>, n: nat)
    requires |s| > 0 && s[0] == NL
    requires TabRun(s, SkipNewlines(s, 1)) == n >= 1
    requires LastLineIndented(s, n)
    ensures TrimmedIndentations(s) == DedentFrom([], Segments(s[1..|s| - n], NL), n)
  {
  }

  /** The text as it is written in indented source code: a leading '\n', each non-empty line after `n` tabs, and a last line of `n - 1` tabs. */
  function IndentedLiteral(lines: seq<seq<byte>>, n: nat): seq<byte>
    requires n >= 1
  {
    [NL] + Join(PrefixAll(lines, Tabs(n)), NL) + [NL] + Tabs(n - 1)
  }

  lemma {:induction false} IndentedBodyStart(lines: seq<seq<byte>>, n: nat)
    requires |lines| >= 1 && lines[0] != []
    ensures var body := Join(PrefixAll(lines, Tabs(n)), NL);
      |body| >= n + 1 && body[..n] == Tabs(n) && body[n] == lines[0][0]
  {
    var indented := PrefixAll(lines, Tabs(n));
    assert indented[0] == Tabs(n) + lines[0];
    if |indented| > 1 {
      JoinCons(indented[0], indented[1..], NL);
      assert indented == [indented[0]] + indented[1..];
    }
  }

  /** The indented literal starts with '\n', is indented by `n` tabs, ends in a last line of `n - 1` tabs, and holds the joined indented lines in between. */
  lemma {:induction false} IndentedLiteralShape(lines: seq<seq<byte>>, n: nat)
    requires n >= 1 && |lines| >= 1
    requires lines[0] != [] && lines[0][0] != TAB
    ensures var s := IndentedLiteral(lines, n);
      |s| > n + 1 && s[0] == NL && TabRun(s, SkipNewlines(s, 1)) == n && LastLineIndented(s, n)
      && s[1..|s| - n] == Join(PrefixAll(lines, Tabs(n)), NL)
  {
    var body := Join(PrefixAll(lines, Tabs(n)), NL);
    var tail := [NL] + Tabs(n - 1);
    var s := IndentedLiteral(lines, n);
    IndentedBodyStart(lines, n);
    assert s == [NL] + body + tail by {
      ConcatAssociative([NL] + body, [NL], Tabs(n - 1));
    }
    assert s[1..|s| - n] == body && s[|s| - n..] == tail by {
      MiddleSlices([NL], body, tail);
    }
    assert s[1] == TAB && s[n + 1] == lines[0][0] by {
      assert s[1] == body[0] && s[n + 1] == body[n];
    }
    assert SkipNewlines(s, 1) == 1;
    assert TabRun(s, 1) == n by {
      assert forall k :: 1 <= k < n + 1 ==> s[k] == body[k - 1];
    }
    assert LastLineIndented(s, n) by {
      assert forall k :: |s| - n <= k < |s| ==> s[k] == tail[k - (|s| - n)];
    }
  }

  lemma {:induction false} MiddleSlices<T>(a: seq<T>, b: seq<T>, c: seq<T>)
    ensures (a + b + c)[|a|..|a| + |b|] == b && (a + b + c)[|a| + |b|..] == c
  {
  }

  /**
   Indenting lines free of '\n' as a literal in indented code and trimming
   the indentation again gives back the lines, each followed by '\n'.
   */
  lemma {:induction false} TrimIndentationsRoundTrip(lines: seq<seq<byte>>, n: nat)
    requires n >= 1 && |lines| >= 1
    requires SeparatorFree(lines, NL)
    requires lines[0] != [] && lines[0][0] != TAB
    ensures TrimmedIndentations(IndentedLiteral(lines, n)) == Ok(Join(lines, NL) + [NL])
  {
    var indented := PrefixAll(lines, Tabs(n));
    IndentedLiteralTrims(lines, n);
    IndentedLinesSegments(lines, n);
    DedentIndented([], lines, n);
    assert [] + Join(lines, NL) + [NL] == Join(lines, NL) + [NL];
  }

  /** TrimIndentations accepts the indentation and the last line of an indented literal and dedents the lines in between. */
  lemma {:induction false} IndentedLiteralTrims(lines: seq<seq<byte>>, n: nat)
    requires n >= 1 && |lines| >= 1
    requires lines[0] != [] && lines[0][0] != TAB
    ensures TrimmedIndentations(IndentedLiteral(lines, n)) == DedentFrom([], Segments(Join(PrefixAll(lines, Tabs(n)), NL), NL), n)
  {
    var s := IndentedLiteral(lines, n);
    var body := Join(PrefixAll(lines, Tabs(n)), NL);
    IndentedLiteralShape(lines, n);
    assert TrimmedIndentations(s) == DedentFrom([], Segments(s[1..|s| - n], NL), n) by {
      TrimmedIndentationsDedents(s, n);
    }
    assert s[1..|s| - n] == body;
  }

  /** Splitting the joined indented lines gives them back. */
  lemma {:induction false} IndentedLinesSegments(lines: seq<seq<byte>>, n: nat)
    requires |lines| >= 1 && SeparatorFree(lines, NL)
    ensures Segments(Join(PrefixAll(lines, Tabs(n)), NL), NL) == PrefixAll(lines, Tabs(n))
  {
    var indented := PrefixAll(lines, Tabs(n));
    assert SeparatorFree(indented, NL) by {
      forall k | 0 <= k < |indented| ensures NL !in indented[k] {
        assert NL !in lines[k];
        assert NL !in Tabs(n);
      }
    }
    SegmentsOfJoin(indented, NL);
  }

  // ---------------------------------------------------------------------------
  // PrefixContinuationLinesWith

  /** Go's strings.ReplaceAll(p, "\n", "\n" + prefix). */
  function ReplaceNewlines(p: string, prefix: string): string
  {
    if |p| == 0 then [] else (if p[0] == '\n' then "\n" + prefix else [p[0]]) + ReplaceNewlines(p[1..], prefix)
  }

  /** Every line after the first gets the prefix, then a prefix right after a final '\n' is removed again. */
  function PrefixContinuationLinesWith(paragraph: string, prefix: string): string
  {
    var replaced := ReplaceNewlines(paragraph, prefix);
    if HasSuffix(paragraph, "\n") then TrimSuffix(replaced, prefix) else replaced
  }

  /** `prefix` put in front of every element of `lines`. */
  function PrefixEach(lines: seq<string>, prefix: string): (r: seq<string>)
    ensures |r| == |lines|
    ensures forall k :: 0 <= k < |lines| ==> r[k] == prefix + lines[k]
  {
    if |lines| == 0 then [] else [prefix + lines[0]] + PrefixEach(lines[1..], prefix)
  }

  /** The first line as is, every further line after `prefix`. */
  function Continued(lines: seq<string>, prefix: string): (r: seq<string>)
    requires |lines| >= 1
    ensures |r| == |lines| && r[0] == lines[0]
  {
    [lines[0]] + PrefixEach(lines[1..], prefix)
  }

  lemma {:induction false} ReplaceNewlinesAppend(a: string, b: string, prefix: string)
    ensures ReplaceNewlines(a + b, prefix) == ReplaceNewlines(a, prefix) + ReplaceNewlines(b, prefix)
  {
    if |a| > 0 {
      assert (a + b)[1..] == a[1..] + b;
      ReplaceNewlinesAppend(a[1..], b, prefix);
    } else {
      assert a + b == b;
    }
  }

  lemma {:induction false} ReplaceNewlinesNone(a: string, prefix: string)
    requires '\n' !in a
    ensures ReplaceNewlines(a, prefix) == a
  {
    if |a| > 0 {
      assert '\n' !in a[1..];
      ReplaceNewlinesNone(a[1..], prefix);
    }
  }

  /** The replacement leaves the first line alone and puts the prefix after the first '\n'. */
  lemma {:induction false} ReplaceNewlinesFirst(p: string, prefix: string)
    requires IndexOf(p, '\n') < |p|
    ensures var end := IndexOf(p, '\n');
      ReplaceNewlines(p, prefix) == p[..end] + ['\n'] + prefix + ReplaceNewlines(p[end + 1..], prefix)
  {
    var end := IndexOf(p, '\n');
    var head, t := p[..end], p[end + 1..];
    SplitAt(p, end);
    ConcatAssociative(head, ['\n'], t);
    ReplaceNewlinesAppend(head, ['\n'] + t, prefix);
    ReplaceNewlinesNone(head, prefix);
    ReplaceNewlinesNewline(t, prefix);
    ConcatAssociative(head, ['\n'] + prefix, ReplaceNewlines(t, prefix));
    ConcatAssociative(head, ['\n'], prefix);
  }

  lemma {:induction false} ReplaceNewlinesNewline(t: string, prefix: string)
    ensures ReplaceNewlines(['\n'] + t, prefix) == ['\n'] + prefix + ReplaceNewlines(t, prefix)
  {
    assert (['\n'] + t)[1..] == t;
  }

  /** Putting a line in front of at least one more joins it unprefixed and prefixes the line that used to be first. */
  lemma {:induction false} ContinuedCons(first: string, lines: seq<string>, prefix: string)
    requires |lines| >= 1
    ensures Join(Continued([first] + lines, prefix), '\n') == first + ['\n'] + prefix + Join(Continued(lines, prefix), '\n')
  {
    var rest := PrefixEach(lines[1..], prefix);
    assert ([first] + lines)[1..] == lines;
    assert lines == [lines[0]] + lines[1..];
    assert PrefixEach(lines, prefix) == [prefix + lines[0]] + rest;
    JoinCons(first, [prefix + lines[0]] + rest, '\n');
    JoinFirst(prefix, lines[0], rest, '\n');
  }

  /** Replacing every '\n' by '\n' and the prefix prefixes every line but the first. */
  lemma {:induction false} ReplaceNewlinesLines(p: string, prefix: string)
    ensures ReplaceNewlines(p, prefix) == Join(Continued(Segments(p, '\n'), prefix), '\n')
    decreases |p|, 1
  {
    var end := IndexOf(p, '\n');
    if end == |p| {
      ReplaceNewlinesLinesBase(p, prefix);
    } else {
      ReplaceNewlinesLinesStep(p, prefix);
    }
  }

  lemma {:induction false} ReplaceNewlinesLinesBase(p: string, prefix: string)
    requires IndexOf(p, '\n') == |p|
    ensures ReplaceNewlines(p, prefix) == Join(Continued(Segments(p, '\n'), prefix), '\n')
  {
    assert ReplaceNewlines(p, prefix) == p by {
      assert p[..|p|] == p;
      ReplaceNewlinesNone(p, prefix);
    }
    assert Segments(p, '\n') == [p];
    assert Continued([p], prefix) == [p];
  }

  lemma {:induction false} ReplaceNewlinesLinesStep(p: string, prefix: string)
    requires IndexOf(p, '\n') < |p|
    ensures ReplaceNewlines(p, prefix) == Join(Continued(Segments(p, '\n'), prefix), '\n')
    decreases |p|, 0
  {
    var end := IndexOf(p, '\n');
    var head, t := p[..end], p[end + 1..];
    ReplaceNewlinesLines(t, prefix);
    var lines := Segments(t, '\n');
    assert ReplaceNewlines(p, prefix) == head + ['\n'] + prefix + ReplaceNewlines(t, prefix) by {
      ReplaceNewlinesFirst(p, prefix);
    }
    assert Join(Continued([head] + lines, prefix), '\n') == head + ['\n'] + prefix + Join(Continued(lines, prefix), '\n') by {
      ContinuedCons(head, lines, prefix);
    }
    assert Segments(p, '\n') == [head] + lines by {
      SegmentsUnfold(p, '\n');
    }
  }

  /**
   The lines of the result: the first one unchanged, every further one after
   the prefix, except the empty line after a final '\n', which stays empty.
   */
  lemma {:induction false} PrefixContinuationLines(p: string, prefix: string)
    ensures var lines := Segments(p, '\n');
      HasSuffix(p, "\n") ==>
        |lines| >= 2 && PrefixContinuationLinesWith(p, prefix) == Join(Continued(lines[..|lines| - 1], prefix) + [""], '\n')
    ensures var lines := Segments(p, '\n');
      !HasSuffix(p, "\n") ==> PrefixContinuationLinesWith(p, prefix) == Join(Continued(lines, prefix), '\n')
  {
    var lines := Segments(p, '\n');
    ReplaceNewlinesLines(p, prefix);
    if HasSuffix(p, "\n") {
      TrailingNewlineLines(p);
      var j := Join(Continued(lines[..|lines| - 1], prefix) + [""], '\n');
      ContinuedTrailing(lines, prefix);
      TrimSuffixOfAppend(j, prefix);
    }
  }

  /** A text ending in '\n' has at least two lines, the last of them empty. */
  lemma {:induction false} TrailingNewlineLines(p: string)
    requires HasSuffix(p, "\n")
    ensures |Segments(p, '\n')| >= 2 && Segments(p, '\n')[|Segments(p, '\n')| - 1] == []
  {
    SegmentsTrailingSeparator(p, '\n');
    SegmentsCount(p, '\n');
    assert p[|p| - 1] == '\n';
  }

  /** When the last line is empty, joining the continued lines ends in the prefix that the final '\n' received. */
  lemma {:induction false} ContinuedTrailing(lines: seq<string>, prefix: string)
    requires |lines| >= 2 && lines[|lines| - 1] == []
    ensures Join(Continued(lines, prefix), '\n') == Join(Continued(lines[..|lines| - 1], prefix) + [""], '\n') + prefix
  {
    var front := lines[..|lines| - 1];
    var c := Continued(lines, prefix);
    assert c == Continued(front, prefix) + [prefix] by {
      var last := lines[|lines| - 1];
      assert lines[1..] == front[1..] + [last];
      PrefixEachSnoc(front[1..], last, prefix);
      assert prefix + last == prefix;
      assert c == [lines[0]] + (PrefixEach(front[1..], prefix) + [prefix]);
    }
    JoinSnoc(Continued(front, prefix), prefix, '\n');
    JoinSnoc(Continued(front, prefix), "", '\n');
  }

  lemma {:induction false} PrefixEachSnoc(lines: seq<string>, l: string, prefix: string)
    ensures PrefixEach(lines + [l], prefix) == PrefixEach(lines, prefix) + [prefix + l]
  {
    assert |PrefixEach(lines + [l], prefix)| == |lines| + 1;
  }

  /** Prefixing with text free of '\n' keeps lines free of '\n'. */
  lemma {:induction false} ContinuedSeparatorFree(lines: seq<string>, prefix: string)
    requires |lines| >= 1 && SeparatorFree(lines, '\n') && '\n' !in prefix
    ensures SeparatorFree(Continued(lines, prefix), '\n')
  {
    var c := Continued(lines, prefix);
    forall k | 0 <= k < |c| ensures '\n' !in c[k] {
      assert '\n' !in lines[k];
      if k > 0 {
        assert c[k] == prefix + lines[k];
      }
    }
  }

  /** A prefix without '\n' keeps the number of newlines and the first line. */
  lemma {:induction false} PrefixContinuationKeepsNewlines(p: string, prefix: string)
    requires '\n' !in prefix
    ensures multiset(PrefixContinuationLinesWith(p, prefix))['\n'] == multiset(p)['\n']
    ensures Segments(PrefixContinuationLinesWith(p, prefix), '\n')[0] == Segments(p, '\n')[0]
  {
    var lines := Segments(p, '\n');
    var r := PrefixContinuationLinesWith(p, prefix);
    var pieces := ContinuationPieces(p, prefix);
    assert multiset(r)['\n'] == |lines| - 1 by {
      JoinCount(pieces, '\n');
    }
    assert Segments(r, '\n') == pieces by {
      SegmentsOfJoin(pieces, '\n');
    }
    SegmentsCount(p, '\n');
  }

  /** The pieces the result joins with '\n': one per line of `p`, none holding a '\n', the first one unchanged. */
  lemma {:induction false} ContinuationPieces(p: string, prefix: string) returns (pieces: seq<string>)
    requires '\n' !in prefix
    ensures |pieces| == |Segments(p, '\n')| && pieces[0] == Segments(p, '\n')[0]
    ensures SeparatorFree(pieces, '\n')
    ensures PrefixContinuationLinesWith(p, prefix) == Join(pieces, '\n')
  {
    var lines := Segments(p, '\n');
    SegmentsSeparatorFree(p, '\n');
    PrefixContinuationLines(p, prefix);
    if HasSuffix(p, "\n") {
      var front := lines[..|lines| - 1];
      assert SeparatorFree(front, '\n') by {
        forall k | 0 <= k < |front| ensures '\n' !in front[k] {
          assert front[k] == lines[k];
        }
      }
      ContinuedSeparatorFree(front, prefix);
      pieces := Continued(front, prefix) + [""];
    } else {
      ContinuedSeparatorFree(lines, prefix);
      pieces := Continued(lines, prefix);
    }
  }

  // ---------------------------------------------------------------------------
  // WordAfterFirstMatch

  /**
   The word after the first occurrence of `substring` followed by a space: the
   longest space-free run right after it, or "" when there is no occurrence.
   */
  function WordAfterFirstMatch(str: string, substring: string): (r: string)
    ensures ' ' !in r
    ensures Index(str, substring + " ").None? ==> r == ""
    ensures Index(str, substring + " ").Some? ==>
      var start := Index(str, substring + " ").value + |substring| + 1;
      start + |r| <= |str| && str[start..start + |r|] == r && (start + |r| == |str| || str[start + |r|] == ' ')
  {
    var pat := substring + " ";
    match Index(str, pat)
    case None => ""
    case Some(offset) =>
      var word := str[offset + |pat|..];
      var i := IndexOf(word, ' ');
      if i == |word| then word else word[..i]
  }

  // ---------------------------------------------------------------------------
  // GuardedBlocks

  /** Index of the first line at or after `from` that `p` matches, or `|lines|`. */
  function FirstMatch(lines: seq<string>, p: string -> bool, from: nat): (i: nat)
    requires from <= |lines|
    ensures from <= i <= |lines|
    ensures forall k :: from <= k < i ==> !p(lines[k])
    ensures i < |lines| ==> p(lines[i])
    decreases |lines| - from
  {
    if from < |lines| && !p(lines[from]) then FirstMatch(lines, p, from + 1) else from
  }

  lemma {:induction false} FirstMatchIs(lines: seq<string>, p: string -> bool, from: nat, i: nat)
    requires from <= i <= |lines|
    requires forall k :: from <= k < i ==> !p(lines[k])
    requires i < |lines| ==> p(lines[i])
    ensures FirstMatch(lines, p, from) == i
  {
  }

  /**
   The blocks as lists of lines: from the first line that `begin` matches to
   the first later line that `end` matches, then again after it; a block that
   is still open at the end of input is dropped.
   */
  function Blocks(lines: seq<string>, begin: string -> bool, end: string -> bool): seq<seq<string>>
    decreases |lines|
  {
    if |lines| == 0 then []
    else if !begin(lines[0]) then Blocks(lines[1..], begin, end)
    else
      var j := FirstMatch(lines, end, 1);
      if j == |lines| then [] else [lines[..j + 1]] + Blocks(lines[j + 1..], begin, end)
  }

  /** Each line followed by '\n'. */
  function Terminated(lines: seq<string>): string
  {
    if |lines| == 0 then "" else lines[0] + "\n" + Terminated(lines[1..])
  }

  /** A block opens with a begin line, closes with an end line, and no line in between matches the end guard. */
  ghost predicate Guarded(block: seq<string>, begin: string -> bool, end: string -> bool)
  {
    |block| >= 2 && begin(block[0]) && end(block[|block| - 1])
    && forall k :: 0 < k < |block| - 1 ==> !end(block[k])
  }

  /** Every block is guarded. */
  lemma {:induction false} BlocksGuarded(lines: seq<string>, begin: string -> bool, end: string -> bool)
    ensures forall k :: 0 <= k < |Blocks(lines, begin, end)| ==> Guarded(Blocks(lines, begin, end)[k], begin, end)
    decreases |lines|
  {
    if |lines| > 0 {
      if !begin(lines[0]) {
        BlocksGuarded(lines[1..], begin, end);
      } else {
        var j := FirstMatch(lines, end, 1);
        if j < |lines| {
          BlocksGuarded(lines[j + 1..], begin, end);
          var b := lines[..j + 1];
          assert forall k :: 0 < k < |b| - 1 ==> b[k] == lines[k];
          assert Guarded(b, begin, end);
        }
      }
    }
  }

  /** Without a line that the end guard matches there are no blocks. */
  lemma {:induction false} BlocksNeedEnd(lines: seq<string>, begin: string -> bool, end: string -> bool)
    requires forall k :: 0 <= k < |lines| ==> !end(lines[k])
    ensures Blocks(lines, begin, end) == []
    decreases |lines|
  {
    if |lines| > 0 {
      if !begin(lines[0]) {
        assert forall k :: 0 <= k < |lines| - 1 ==> lines[1..][k] == lines[k + 1];
        BlocksNeedEnd(lines[1..], begin, end);
      } else {
        FirstMatchIs(lines, end, 1, |lines|);
      }
    }
  }

  /** An open block whose `m`-th line is the first to match the end guard closes there. */
  lemma {:induction false} BlocksClose(lines: seq<string>, begin: string -> bool, end: string -> bool, m: nat)
    requires 0 < m < |lines| && begin(lines[0]) && end(lines[m])
    requires forall k :: 0 < k < m ==> !end(lines[k])
    ensures Blocks(lines, begin, end) == [lines[..m + 1]] + Blocks(lines[m + 1..], begin, end)
  {
    FirstMatchIs(lines, end, 1, m);
  }

  /** An open block that no later line closes yields nothing. */
  lemma {:induction false} BlocksUnclosed(lines: seq<string>, begin: string -> bool, end: string -> bool)
    requires 0 < |lines| && begin(lines[0])
    requires forall k :: 0 < k < |lines| ==> !end(lines[k])
    ensures Blocks(lines, begin, end) == []
  {
    FirstMatchIs(lines, end, 1, |lines|);
  }

  /** Each block of lines as one string, every line followed by '\n'. */
  function TerminatedAll(blocks: seq<seq<string>>): (r: seq<string>)
    ensures |r| == |blocks|
    ensures forall k :: 0 <= k < |blocks| ==> r[k] == Terminated(blocks[k])
  {
    if |blocks| == 0 then [] else [Terminated(blocks[0])] + TerminatedAll(blocks[1..])
  }

  /**
   The blocks the loop of GuardedBlocks still appends, from the state
   (`inBlock`, `block`) on, after handling `lines`.
   */
  function Scan(lines: seq<string>, begin: string -> bool, end: string -> bool, inBlock: bool, block: string): seq<string>
    decreases |lines|
  {
    if |lines| == 0 then []
    else
      var line := lines[0];
      if begin(line) && !inBlock then Scan(lines[1..], begin, end, true, block + line + "\n")
      else if end(line) && inBlock then [block + line + "\n"] + Scan(lines[1..], begin, end, false, "")
      else if inBlock then Scan(lines[1..], begin, end, true, block + line + "\n")
      else Scan(lines[1..], begin, end, false, block)
  }

  /** Inside a block holding `open`, the scan closes it at the first end line, or yields nothing when none follows. */
  lemma {:induction false} ScanInside(lines: seq<string>, begin: string -> bool, end: string -> bool, open: seq<string>)
    ensures var j := FirstMatch(lines, end, 0);
      Scan(lines, begin, end, true, Terminated(open)) ==
        if j == |lines| then [] else [Terminated(open + lines[..j + 1])] + Scan(lines[j + 1..], begin, end, false, "")
    decreases |lines|
  {
    if |lines| > 0 {
      var line := lines[0];
      TerminatedSnoc(open, line);
      if end(line) {
        FirstMatchIs(lines, end, 0, 0);
        assert lines[..1] == [line];
      } else {
        var rest := lines[1..];
        ScanInside(rest, begin, end, open + [line]);
        var j := FirstMatch(lines, end, 0);
        FirstMatchIs(rest, end, 0, j - 1);
        if j < |lines| {
          TailSlices(open, lines, j + 1);
        }
      }
    }
  }

  lemma {:induction false} TailSlices<T>(open: seq<T>, lines: seq<T>, j: nat)
    requires 0 < j <= |lines|
    ensures open + [lines[0]] + lines[1..][..j - 1] == open + lines[..j]
    ensures lines[1..][j - 1..] == lines[j..]
  {
  }

  /** Outside a block, the scan yields exactly the blocks of `Blocks`, each as terminated lines. */
  lemma {:induction false} ScanBlocks(lines: seq<string>, begin: string -> bool, end: string -> bool)
    ensures Scan(lines, begin, end, false, "") == TerminatedAll(Blocks(lines, begin, end))
    decreases |lines|
  {
    if |lines| > 0 {
      var line := lines[0];
      var rest := lines[1..];
      if !begin(line) {
        ScanBlocks(rest, begin, end);
      } else {
        assert "" + line + "\n" == Terminated([line]);
        ScanInside(rest, begin, end, [line]);
        var j := FirstMatch(rest, end, 0);
        FirstMatchIs(lines, end, 1, j + 1);
        if j == |rest| {
          BlocksUnclosed(lines, begin, end);
        } else {
          BlocksClose(lines, begin, end, j + 1);
          TailSlices([], lines, j + 2);
          assert [line] + rest[..j + 1] == lines[..j + 2];
          ScanBlocks(lines[j + 2..], begin, end);
        }
      }
    }
  }

  /** The guard that closes blocks: the end guard, or the begin guard when there is none. */
  function EndGuard(begin: string -> bool, end: Option<string -> bool>): string -> bool
  {
    if end.Some? then end.value else begin
  }

  /**
   The loop of the source. A nil end guard means the begin guard closes blocks
   too; every block is returned as its lines, each followed by '\n'.
   */
  method GuardedBlocks(data: string, begin: string -> bool, end: Option<string -> bool>) returns (blocks: seq<string>)
    ensures blocks == TerminatedAll(Blocks(Segments(data, '\n'), begin, EndGuard(begin, end)))
  {
    var guard := EndGuard(begin, end);
    var lines := Split(data, '\n');
    var block := "";
    var inBlock := false;
    blocks := [];
    var i := 0;
    while i < |lines|
      invariant 0 <= i <= |lines|
      invariant blocks + Scan(lines[i..], begin, guard, inBlock, block) == Scan(lines, begin, guard, false, "")
    {
      var line := lines[i];
      ghost var rest := lines[i + 1..];
      ghost var pending := blocks;
      ghost var scan := Scan(lines[i..], begin, guard, inBlock, block);
      assert lines[i..][0] == line && lines[i..][1..] == rest;
      if begin(line) && !inBlock {
        assert scan == Scan(rest, begin, guard, true, block + line + "\n");
        inBlock := true;
        block := block + line + "\n";
      } else if guard(line) && inBlock {
        var closed := block + line + "\n";
        assert scan == [closed] + Scan(rest, begin, guard, false, "");
        ConcatAssociative(pending, [closed], Scan(rest, begin, guard, false, ""));
        inBlock := false;
        blocks := blocks + [closed];
        block := "";
      } else if inBlock {
        assert scan == Scan(rest, begin, guard, true, block + line + "\n");
        block := block + line + "\n";
      } else {
        assert scan == Scan(rest, begin, guard, false, block);
      }
      i := i + 1;
    }
    ScanBlocks(lines, begin, guard);
  }

  lemma {:induction false} TerminatedSnoc(lines: seq<string>, l: string)
    ensures Terminated(lines + [l]) == Terminated(lines) + l + "\n"
  {
    if |lines| > 0 {
      assert (lines + [l])[1..] == lines[1..] + [l];
      TerminatedSnoc(lines[1..], l);
    }
  }
}
