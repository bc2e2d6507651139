/**
 Model of bytesutil/splitter.go: splitting a sequence at every occurrence of a
 separator element. `Segments` is the specification; `Split` is the loop of
 the source, which reslices its input and hands out one segment at a time.
 The channel of the source is only the delivery mechanism: here the segments
 are returned as one sequence, in the order the channel delivers them.
 */
module Splitter {

  /** Index of the first occurrence of `x` in `s`, or `|s|` when there is none. */
  function IndexOf<T(==)>(s: seq<T>, x: T): (i: nat)
    ensures i <= |s|
    ensures i < |s| ==> s[i] == x
    ensures forall k :: 0 <= k < i ==> s[k] != x
  {
    if |s| == 0 then 0
    else if s[0] == x then 0
    else 1 + IndexOf(s[1..], x)
  }

  /** The segments of `s` between occurrences of `sep`. */
  function Segments<T(==)>(s: seq<T>, sep: T): (r: seq<seq<T>>)
    ensures |r| >= 1
    decreases |s|
  {
    var end := IndexOf(s, sep);
    if end == |s| then [s] else [s[..end]] + Segments(s[end + 1..], sep)
  }

  lemma {:induction false} SegmentsUnfold<T>(s: seq<T>, sep: T)
    requires IndexOf(s, sep) < |s|
    ensures Segments(s, sep) == [s[..IndexOf(s, sep)]] + Segments(s[IndexOf(s, sep) + 1..], sep)
  {
  }

  /** The elements of `segs` with `sep` between consecutive ones (the inverse of `Segments`). */
  function Join<T>(segs: seq<seq<T>>, sep: T): seq<T>
  {
    if |segs| == 0 then []
    else if |segs| == 1 then segs[0]
    else segs[0] + [sep] + Join(segs[1..], sep)
  }

  /** No segment contains the separator. */
  ghost predicate SeparatorFree<T>(segs: seq<seq<T>>, sep: T)
  {
    forall k :: 0 <= k < |segs| ==> sep !in segs[k]
  }

  /** Joining the segments with the separator gives back the input. */
  lemma {:induction false} JoinSegments<T>(s: seq<T>, sep: T)
    ensures Join(Segments(s, sep), sep) == s
    decreases |s|, 1
  {
    var end := IndexOf(s, sep);
    if end < |s| {
      JoinSegmentsStep(s, sep);
    } else {
      JoinSegmentsBase(s, sep);
    }
  }

  lemma {:induction false} JoinSegmentsBase<T>(s: seq<T>, sep: T)
    requires IndexOf(s, sep) == |s|
    ensures Join(Segments(s, sep), sep) == s
  {
    assert Segments(s, sep) == [s];
  }

  lemma {:induction false} JoinSegmentsStep<T>(s: seq<T>, sep: T)
    requires IndexOf(s, sep) < |s|
    ensures Join(Segments(s, sep), sep) == s
    decreases |s|, 0
  {
    var end := IndexOf(s, sep);
    var head, tail := s[..end], s[end + 1..];
    JoinSegments(tail, sep);
    assert Segments(s, sep) == [head] + Segments(tail, sep) by {
      SegmentsUnfold(s, sep);
    }
    assert Join([head] + Segments(tail, sep), sep) == head + [sep] + tail by {
      JoinCons(head, Segments(tail, sep), sep);
    }
    assert head + [sep] + tail == s by {
      SplitAt(s, end);
    }
  }

  lemma {:induction false} ConcatAssociative<T>(a: seq<T>, b: seq<T>, c: seq<T>)
    ensures (a + b) + c == a + (b + c)
  {
  }

  lemma {:induction false} ConsAt<T>(x: T, s: seq<T>, k: nat)
    requires 0 < k <= |s|
    ensures ([x] + s)[k] == s[k - 1]
  {
  }

  lemma {:induction false} LastOfCons<T>(a: seq<T>, x: T, s: seq<T>)
    requires a == [x] + s && |s| > 0
    ensures a[|a| - 1] == s[|s| - 1]
  {
  }

  lemma {:induction false} SplitAt<T>(s: seq<T>, i: nat)
    requires i < |s|
    ensures s == s[..i] + [s[i]] + s[i + 1..]
  {
  }

  /** No emitted segment contains the separator. */
  lemma {:induction false} SegmentsSeparatorFree<T>(s: seq<T>, sep: T)
    ensures SeparatorFree(Segments(s, sep), sep)
    decreases |s|
  {
    var end := IndexOf(s, sep);
    if end < |s| {
      SegmentsSeparatorFree(s[end + 1..], sep);
    }
  }

  /** There is one more segment than there are separators. */
  lemma {:induction false} SegmentsCount<T>(s: seq<T>, sep: T)
    ensures |Segments(s, sep)| == multiset(s)[sep] + 1
    decreases |s|, 1
  {
    if IndexOf(s, sep) < |s| {
      SegmentsCountStep(s, sep);
    } else {
      assert Segments(s, sep) == [s] && sep !in s;
    }
  }

  lemma {:induction false} SegmentsCountStep<T>(s: seq<T>, sep: T)
    requires IndexOf(s, sep) < |s|
    ensures |Segments(s, sep)| == multiset(s)[sep] + 1
    decreases |s|, 0
  {
    var end := IndexOf(s, sep);
    var tail := s[end + 1..];
    SegmentsCount(tail, sep);
    CountAfterFirst(s, end, sep);
  }

  /** Counting `x` in `s` where `i` is its first occurrence: one, plus the count after `i`. */
  lemma {:induction false} CountAfterFirst<T>(s: seq<T>, i: nat, x: T)
    requires i < |s| && s[i] == x && x !in s[..i]
    ensures multiset(s)[x] == multiset(s[i + 1..])[x] + 1
  {
    var head, tail := s[..i], s[i + 1..];
    assert s == head + [x] + tail;
    assert multiset(s) == multiset(head) + multiset([x]) + multiset(tail);
    assert multiset(head)[x] == 0;
  }

  /** Joining separator-free pieces with the separator counts one separator between each two. */
  lemma {:induction false} JoinCount<T>(segs: seq<seq<T>>, sep: T)
    requires |segs| >= 1
    requires SeparatorFree(segs, sep)
    ensures multiset(Join(segs, sep))[sep] == |segs| - 1
  {
    if |segs| == 1 {
      assert sep !in segs[0];
    } else {
      JoinCount(segs[1..], sep);
      assert sep !in segs[0];
    }
  }

  /** Joining a first piece in front of at least one more puts the separator after it. */
  lemma {:induction false} JoinCons<T>(x: seq<T>, segs: seq<seq<T>>, sep: T)
    requires |segs| >= 1
    ensures Join([x] + segs, sep) == x + [sep] + Join(segs, sep)
  {
    assert ([x] + segs)[1..] == segs;
  }

  /** What starts the first piece starts the joined sequence. */
  lemma {:induction false} JoinFirst<T>(a: seq<T>, b: seq<T>, segs: seq<seq<T>>, sep: T)
    ensures Join([a + b] + segs, sep) == a + Join([b] + segs, sep)
  {
    if |segs| > 0 {
      assert ([a + b] + segs)[1..] == segs;
      assert ([b] + segs)[1..] == segs;
    }
  }

  /** Joining one more piece appends the separator and that piece. */
  lemma {:induction false} JoinSnoc<T>(segs: seq<seq<T>>, x: seq<T>, sep: T)
    requires |segs| >= 1
    ensures Join(segs + [x], sep) == Join(segs, sep) + [sep] + x
  {
    if |segs| > 1 {
      assert (segs + [x])[1..] == segs[1..] + [x];
      JoinSnoc(segs[1..], x, sep);
    }
  }

  /** `Segments` is the only separator-free, non-empty sequence of pieces that joins to its input. */
  lemma {:induction false} SegmentsOfJoin<T>(segs: seq<seq<T>>, sep: T)
    requires |segs| >= 1
    requires SeparatorFree(segs, sep)
    ensures Segments(Join(segs, sep), sep) == segs
  {
    var s := Join(segs, sep);
    var first := segs[0];
    assert sep !in first;
    if |segs| == 1 {
      IndexOfAbsent(first, sep);
    } else {
      var rest := Join(segs[1..], sep);
      assert s == first + [sep] + rest;
      assert IndexOf(s, sep) == |first| by {
        IndexOfFirst(first, sep, rest);
      }
      assert s[..|first|] == first && s[|first| + 1..] == rest;
      assert Segments(s, sep) == [first] + Segments(rest, sep) by {
        SegmentsUnfold(s, sep);
      }
      assert SeparatorFree(segs[1..], sep) by {
        forall k | 0 <= k < |segs| - 1 ensures sep !in segs[1..][k] {
          assert segs[1..][k] == segs[k + 1];
        }
      }
      SegmentsOfJoin(segs[1..], sep);
      assert segs == [first] + segs[1..];
    }
  }

  lemma {:induction false} IndexOfAbsent<T>(s: seq<T>, x: T)
    requires x !in s
    ensures IndexOf(s, x) == |s|
  {
    if |s| > 0 {
      assert x !in s[1..] by {
        forall k | 0 <= k < |s| - 1 ensures s[1..][k] != x { assert s[1..][k] == s[k + 1]; }
      }
      IndexOfAbsent(s[1..], x);
    }
  }

  lemma {:induction false} IndexOfFirst<T>(a: seq<T>, x: T, b: seq<T>)
    requires x !in a
    ensures IndexOf(a + [x] + b, x) == |a|
  {
    if |a| > 0 {
      assert (a + [x] + b)[1..] == a[1..] + [x] + b;
      assert x !in a[1..] by {
        forall k | 0 <= k < |a| - 1 ensures a[1..][k] != x { assert a[1..][k] == a[k + 1]; }
      }
      IndexOfFirst(a[1..], x, b);
    }
  }

  /** Empty input yields exactly one empty segment. */
  lemma {:induction false} SegmentsOfEmpty<T>(sep: T)
    ensures Segments([], sep) == [[]]
  {
  }

  /** A leading separator yields an empty first segment. */
  lemma {:induction false} SegmentsLeadingSeparator<T>(s: seq<T>, sep: T)
    requires |s| > 0 && s[0] == sep
    ensures Segments(s, sep)[0] == []
  {
    assert IndexOf(s, sep) == 0;
    SegmentsUnfold(s, sep);
  }

  /** A trailing separator yields an empty last segment. */
  lemma {:induction false} SegmentsTrailingSeparator<T>(s: seq<T>, sep: T)
    requires |s| > 0 && s[|s| - 1] == sep
    ensures Segments(s, sep)[|Segments(s, sep)| - 1] == []
    decreases |s|
  {
    var end := IndexOf(s, sep);
    assert end < |s|;
    var rest := s[end + 1..];
    SegmentsLastOfRest(s, sep);
    if |rest| == 0 {
      assert Segments(rest, sep) == [[]];
    } else {
      assert rest[|rest| - 1] == sep;
      SegmentsTrailingSeparator(rest, sep);
    }
  }

  /** The last segment of `s` is the last segment of what follows its first separator. */
  lemma {:induction false} SegmentsLastOfRest<T>(s: seq<T>, sep: T)
    requires IndexOf(s, sep) < |s|
    ensures var segs, rest := Segments(s, sep), Segments(s[IndexOf(s, sep) + 1..], sep);
      segs[|segs| - 1] == rest[|rest| - 1]
  {
    var i := IndexOf(s, sep);
    SegmentsUnfold(s, sep);
    LastOfCons(Segments(s, sep), s[..i], Segments(s[i + 1..], sep));
  }

  /** The segments of `s` followed by a separator and `t`: the last segment of `s` is continued by nothing, and the segments of `t` follow. */
  lemma {:induction false} SegmentsAppend<T>(s: seq<T>, sep: T, t: seq<T>)
    ensures Segments(s + [sep] + t, sep) == Segments(s, sep) + Segments(t, sep)
    decreases |s|, 1
  {
    var end := IndexOf(s, sep);
    if end == |s| {
      SegmentsAppendLast(s, sep, t);
    } else {
      SegmentsAppendStep(s, sep, t);
    }
  }

  lemma {:induction false} SegmentsAppendLast<T>(s: seq<T>, sep: T, t: seq<T>)
    requires IndexOf(s, sep) == |s|
    ensures Segments(s + [sep] + t, sep) == Segments(s, sep) + Segments(t, sep)
  {
    var u := s + [sep] + t;
    assert IndexOf(u, sep) == |s| by {
      assert s[..|s|] == s;
      IndexOfFirst(s, sep, t);
    }
    assert u[..|s|] == s && u[|s| + 1..] == t;
    assert Segments(u, sep) == [s] + Segments(t, sep) by {
      SegmentsUnfold(u, sep);
    }
  }

  lemma {:induction false} SegmentsAppendStep<T>(s: seq<T>, sep: T, t: seq<T>)
    requires IndexOf(s, sep) < |s|
    ensures Segments(s + [sep] + t, sep) == Segments(s, sep) + Segments(t, sep)
    decreases |s|, 0
  {
    var u := s + [sep] + t;
    var end := IndexOf(s, sep);
    var head, rest := s[..end], s[end + 1..];
    SegmentsAppend(rest, sep, t);
    var v := rest + [sep] + t;
    assert IndexOf(u, sep) == end by {
      ConcatAssociative(s, [sep], t);
      IndexOfPrefix(s, sep, [sep] + t);
    }
    assert u[..end] == head && u[end + 1..] == v by {
      ConcatAssociative(s, [sep], t);
      AppendSlices(s, [sep] + t, end);
      ConcatAssociative(rest, [sep], t);
    }
    assert Segments(u, sep) == [head] + Segments(v, sep) by {
      SegmentsUnfold(u, sep);
    }
    assert Segments(s, sep) == [head] + Segments(rest, sep) by {
      SegmentsUnfold(s, sep);
    }
    ConcatAssociative([head], Segments(rest, sep), Segments(t, sep));
  }

  lemma {:induction false} AppendSlices<T>(s: seq<T>, w: seq<T>, i: nat)
    requires i < |s|
    ensures (s + w)[..i] == s[..i] && (s + w)[i + 1..] == s[i + 1..] + w
  {
  }

  lemma {:induction false} IndexOfPrefix<T>(s: seq<T>, x: T, t: seq<T>)
    requires IndexOf(s, x) < |s|
    ensures IndexOf(s + t, x) == IndexOf(s, x)
  {
    if s[0] != x {
      assert (s + t)[1..] == s[1..] + t;
      IndexOfPrefix(s[1..], x, t);
    }
  }

  /**
   The loop of the source: find the next separator, hand out the segment before
   it, continue after it; stop after the segment that reaches the end of input.
   */
  method Split<T(==)>(s: seq<T>, sep: T) returns (segs: seq<seq<T>>)
    ensures segs == Segments(s, sep)
  {
    var rest := s;
    segs := [];
    while true
      invariant segs + Segments(rest, sep) == Segments(s, sep)
      decreases |rest|
    {
      var end := IndexOf(rest, sep);
      if end == |rest| {
        assert Segments(rest, sep) == [rest];
        segs := segs + [rest];
        return;
      }
      assert Segments(rest, sep) == [rest[..end]] + Segments(rest[end + 1..], sep);
      ConcatAssociative(segs, [rest[..end]], Segments(rest[end + 1..], sep));
      segs := segs + [rest[..end]];
      rest := rest[end + 1..];
    }
  }
}
