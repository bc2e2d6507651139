/**
 Model of path_operator.go: the greatest common directory of a list of paths,
 and the PATH environment variable as a list of directories. Paths use the
 Unix separators: '/' between components and ':' between PATH entries.
 */
module PathOperator {
  import opened Wrappers
  import opened Splitter
  import opened Strings

  const PathSeparator: char := '/'
  const PathListSeparator: char := ':'
  const EnvironmentPathIdentifier: string := "PATH"

  // ---------------------------------------------------------------------------
  // GreatestCommonDirectory

  function Min(a: nat, b: nat): nat
  {
    if a < b then a else b
  }

  /** Length of the longest common prefix of `a` and `b`. */
  function CommonPrefixLength(a: string, b: string): (k: nat)
    ensures k <= |a| && k <= |b|
    ensures a[..k] == b[..k]
    ensures k < |a| && k < |b| ==> a[k] != b[k]
  {
    if |a| == 0 || |b| == 0 || a[0] != b[0] then 0
    else
      var k := 1 + CommonPrefixLength(a[1..], b[1..]);
      assert a[..k] == [a[0]] + a[1..][..k - 1];
      assert b[..k] == [b[0]] + b[1..][..k - 1];
      k
  }

  /** Index of the last separator in `a[..k]`, or 0 when there is none. */
  function LastSeparator(a: string, k: nat): (i: nat)
    requires k <= |a|
    ensures i <= k
    ensures (i < k && a[i] == PathSeparator) || (i == 0 && forall j :: 0 <= j < k ==> a[j] != PathSeparator)
    ensures forall j :: i < j < k ==> a[j] != PathSeparator
  {
    if k == 0 then 0
    else if a[k - 1] == PathSeparator then k - 1
    else LastSeparator(a, k - 1)
  }

  /**
   Where the inner loop of the source cuts the candidate `g` against the path
   `c`: at the shorter length when the two agree up to it and the candidate's
   last byte there is not a separator, otherwise at the last separator before
   the first difference (0 when there is none).
   */
  function CommonIndex(g: string, c: string): (idx: nat)
    ensures idx <= |g| && idx <= |c| && g[..idx] == c[..idx]
    ensures idx <= CommonPrefixLength(g, c)
    ensures idx == 0 || idx == Min(|g|, |c|) || g[idx] == PathSeparator
    ensures forall j :: 0 <= j < CommonPrefixLength(g, c) && g[j] == PathSeparator ==> j <= idx
  {
    var m := Min(|g|, |c|);
    var k := CommonPrefixLength(g, c);
    if k == m && m > 0 && g[m - 1] != PathSeparator then m
    else
      var i := LastSeparator(g, k);
      assert g[..i] == g[..k][..i] && c[..i] == c[..k][..i];
      i
  }

  /** The inner loop of the source: the common index of the candidate and one more path. */
  method CurrentCommonIndex(g: string, c: string) returns (idx: nat)
    ensures idx == CommonIndex(g, c)
  {
    var m := if |c| < |g| then |c| else |g|;
    idx := 0;
    var i := 0;
    while i < m
      invariant 0 <= i <= m && i <= CommonPrefixLength(g, c)
      invariant idx == (if i == m && m > 0 && g[m - 1] != PathSeparator then m else LastSeparator(g, i))
    {
      if c[i] != g[i] {
        break;
      }
      if c[i] == PathSeparator {
        idx := i;
      } else if i == m - 1 {
        idx := m;
      }
      i := i + 1;
    }
  }

  /** The candidate after cutting it against every path of `paths` in turn. */
  function CutAll(g: string, paths: seq<string>): string
    decreases |paths|
  {
    if |paths| == 0 then g else CutAll(g[..CommonIndex(g, paths[0])], paths[1..])
  }

  /** What GreatestCommonDirectory returns: "" for no paths, else the first path cut against all others. */
  function CommonDirectory(paths: seq<string>): string
  {
    if |paths| == 0 then "" else CutAll(paths[0], paths[1..])
  }

  /** The outer loop of the source. */
  method GreatestCommonDirectory(paths: seq<string>) returns (dir: string)
    ensures dir == CommonDirectory(paths)
    ensures |paths| == 0 ==> dir == ""
    ensures |paths| == 1 ==> dir == paths[0]
    ensures forall k :: 0 <= k < |paths| ==> HasPrefix(paths[k], dir)
    ensures forall d :: |paths| > 0 && NoTrailingSeparator(d) && (forall k :: 0 <= k < |paths| ==> InDirectory(paths[k], d)) ==>
      InDirectory(dir, d)
  {
    CommonDirectoryPrefix(paths);
    forall d | |paths| > 0 && NoTrailingSeparator(d) && (forall k :: 0 <= k < |paths| ==> InDirectory(paths[k], d))
      ensures InDirectory(CommonDirectory(paths), d)
    {
      CommonDirectoryGreatest(paths, d);
    }
    if |paths| == 0 {
      return "";
    }
    dir := paths[0];
    var i := 1;
    while i < |paths|
      invariant 1 <= i <= |paths|
      invariant CutAll(dir, paths[i..]) == CutAll(paths[0], paths[1..])
    {
      var idx := CurrentCommonIndex(dir, paths[i]);
      assert paths[i..][1..] == paths[i + 1..];
      dir := dir[..idx];
      i := i + 1;
    }
  }

  /** The candidate only shrinks: the result is a prefix of the starting candidate and of every path it was cut against. */
  lemma {:induction false} CutAllPrefix(g: string, paths: seq<string>)
    ensures HasPrefix(g, CutAll(g, paths))
    ensures forall k :: 0 <= k < |paths| ==> HasPrefix(paths[k], CutAll(g, paths))
    decreases |paths|
  {
    if |paths| > 0 {
      var g' := g[..CommonIndex(g, paths[0])];
      CutAllPrefix(g', paths[1..]);
      var r := CutAll(g, paths);
      assert r == CutAll(g', paths[1..]);
      assert g[..|r|] == g'[..|r|];
      assert paths[0][..|r|] == g'[..|r|];
      forall k | 1 <= k < |paths| ensures HasPrefix(paths[k], r) {
        assert paths[k] == paths[1..][k - 1];
      }
    }
  }

  /** The result is a prefix of every path. */
  lemma {:induction false} CommonDirectoryPrefix(paths: seq<string>)
    ensures forall k :: 0 <= k < |paths| ==> HasPrefix(paths[k], CommonDirectory(paths))
  {
    if |paths| > 0 {
      CutAllPrefix(paths[0], paths[1..]);
      forall k | 1 <= k < |paths| ensures HasPrefix(paths[k], CommonDirectory(paths)) {
        assert paths[k] == paths[1..][k - 1];
      }
    }
  }

  /** A directory name without a trailing separator, the form the results take. */
  predicate NoTrailingSeparator(d: string)
  {
    |d| == 0 || d[|d| - 1] != PathSeparator
  }

  /** A path `p` lies in the directory `d`: `d` is empty, `p` itself, or followed by a separator in `p`. */
  predicate InDirectory(p: string, d: string)
  {
    HasPrefix(p, d) && (|d| == 0 || |d| == |p| || p[|d|] == PathSeparator)
  }

  /** Cutting the candidate against a path keeps every directory the two have in common. */
  lemma {:induction false} CommonIndexKeepsDirectories(g: string, c: string, d: string)
    requires InDirectory(g, d) && InDirectory(c, d) && NoTrailingSeparator(d)
    ensures InDirectory(g[..CommonIndex(g, c)], d)
  {
    CommonIndexMaximal(g, c, d);
  }

  lemma {:induction false} CommonIndexMaximal(g: string, c: string, d: string)
    requires InDirectory(g, d) && InDirectory(c, d) && NoTrailingSeparator(d)
    ensures |d| <= CommonIndex(g, c) && (|d| == 0 || |d| == CommonIndex(g, c) || g[|d|] == PathSeparator)
  {
    var k := CommonPrefixLength(g, c);
    assert g[..|d|] == d == c[..|d|];
    if 0 < |d| < |g| && |d| < |c| {
      assert g[|d|] == c[|d|];
    }
  }

  /**
   The result is greatest: every directory (written without a trailing
   separator) that all paths lie in is a directory of the result.
   */
  lemma {:induction false} CutAllKeepsDirectories(g: string, paths: seq<string>, d: string)
    requires InDirectory(g, d) && NoTrailingSeparator(d)
    requires forall k :: 0 <= k < |paths| ==> InDirectory(paths[k], d)
    ensures InDirectory(CutAll(g, paths), d)
    decreases |paths|
  {
    if |paths| > 0 {
      CommonIndexKeepsDirectories(g, paths[0], d);
      assert forall k :: 0 <= k < |paths| - 1 ==> paths[1..][k] == paths[k + 1];
      CutAllKeepsDirectories(g[..CommonIndex(g, paths[0])], paths[1..], d);
    }
  }

  /** Every common directory of the paths is a directory of GreatestCommonDirectory's result. */
  lemma {:induction false} CommonDirectoryGreatest(paths: seq<string>, d: string)
    requires |paths| > 0 && NoTrailingSeparator(d)
    requires forall k :: 0 <= k < |paths| ==> InDirectory(paths[k], d)
    ensures InDirectory(CommonDirectory(paths), d)
  {
    assert forall k :: 0 <= k < |paths| - 1 ==> paths[1..][k] == paths[k + 1];
    CutAllKeepsDirectories(paths[0], paths[1..], d);
  }

  /** Two paths that first differ before any separator have no common directory. */
  lemma {:induction false} NoCommonFirstComponent(g: string, c: string)
    requires CommonPrefixLength(g, c) < Min(|g|, |c|)
    requires PathSeparator !in g[..CommonPrefixLength(g, c)]
    ensures CommonIndex(g, c) == 0
  {
  }

  /** Cutting equal paths drops a trailing separator and keeps everything else. */
  lemma {:induction false} CommonIndexEqual(g: string)
    ensures |g| > 0 && g[|g| - 1] == PathSeparator ==> CommonIndex(g, g) == |g| - 1
    ensures |g| > 0 && g[|g| - 1] != PathSeparator ==> CommonIndex(g, g) == |g|
  {
    assert g[..|g|] == g;
  }

  /** The examples of the source's tests with equal paths, up to a trailing separator. */
  lemma {:induction false} CommonDirectoryExamplesEqual()
    ensures CommonDirectory(["pkg/a", "pkg/a"]) == "pkg/a"
    ensures CommonDirectory(["pkg/a", "pkg/a/"]) == "pkg/a"
    ensures CommonDirectory(["pkg/a/", "pkg/a/"]) == "pkg/a"
  {
    CommonIndexEqual("pkg/a");
    CommonIndexEqual("pkg/a/");
    assert "pkg/a/"[..5] == "pkg/a";
    assert CommonPrefixLength("pkg/a", "pkg/a/") == 5;
  }

  /** The examples of the source's tests with paths that differ. */
  lemma {:induction false} CommonDirectoryExamplesDiffer()
    ensures CommonDirectory(["pkg/a", "pkg/b"]) == "pkg"
    ensures CommonDirectory(["pkg/a", "other/a"]) == ""
    ensures CommonDirectory(["pkg/a/b", "pkg/c"]) == "pkg"
  {
    assert CommonPrefixLength("pkg/a", "pkg/b") == 4;
    assert LastSeparator("pkg/a", 4) == 3;
    assert "pkg/a"[..3] == "pkg";
    assert CommonPrefixLength("pkg/a", "other/a") == 0;
    assert CommonPrefixLength("pkg/a/b", "pkg/c") == 4;
    assert LastSeparator("pkg/a/b", 4) == 3;
    assert "pkg/a/b"[..3] == "pkg";
  }

  // ---------------------------------------------------------------------------
  // The candidate that is a prefix but not a directory (see README, Findings)

  /** As written, a path that continues the other one without a separator keeps the whole shorter path. */
  lemma {:induction false} CommonDirectoryNotADirectory()
    ensures CommonDirectory(["pkg/a", "pkg/ab"]) == "pkg/a"
    ensures !InDirectory("pkg/ab", CommonDirectory(["pkg/a", "pkg/ab"]))
  {
    assert CommonPrefixLength("pkg/a", "pkg/ab") == 5;
    assert "pkg/a"[..5] == "pkg/a";
  }

  /**
   The cut the source evidently intends: the shorter length counts as a
   component boundary only when each of the two paths ends there or continues
   with a separator.
   */
  function DirectoryCommonIndex(g: string, c: string): (idx: nat)
    ensures idx <= |g| && idx <= |c| && g[..idx] == c[..idx]
    ensures InDirectory(g, g[..idx]) && InDirectory(c, g[..idx])
    ensures idx <= CommonPrefixLength(g, c)
    ensures idx == 0 || idx == Min(|g|, |c|) || g[idx] == PathSeparator
    ensures forall j :: 0 <= j < CommonPrefixLength(g, c) && g[j] == PathSeparator ==> j <= idx
  {
    var m := Min(|g|, |c|);
    var k := CommonPrefixLength(g, c);
    if k == m && m > 0 && g[m - 1] != PathSeparator
      && (m == |g| || g[m] == PathSeparator) && (m == |c| || c[m] == PathSeparator)
    then
      assert g[..m] == c[..m];
      m
    else
      var i := LastSeparator(g, k);
      assert g[..i] == g[..k][..i] && c[..i] == c[..k][..i];
      assert i < k ==> c[i] == c[..k][i] == g[..k][i];
      i
  }

  function DirectoryCutAll(g: string, paths: seq<string>): string
    decreases |paths|
  {
    if |paths| == 0 then g else DirectoryCutAll(g[..DirectoryCommonIndex(g, paths[0])], paths[1..])
  }

  /** GreatestCommonDirectory with the intended cut. */
  function GreatestCommonDirectoryOf(paths: seq<string>): string
  {
    if |paths| == 0 then "" else DirectoryCutAll(paths[0], paths[1..])
  }

  lemma {:induction false} InDirectoryTransitive(p: string, d: string, e: string)
    requires InDirectory(p, d) && InDirectory(d, e)
    ensures InDirectory(p, e)
  {
    if |e| > 0 && |e| < |d| {
      assert p[|e|] == d[|e|];
    }
    assert p[..|e|] == d[..|e|];
  }

  lemma {:induction false} DirectoryCutAllInDirectory(g: string, paths: seq<string>)
    ensures InDirectory(g, DirectoryCutAll(g, paths))
    ensures forall k :: 0 <= k < |paths| ==> InDirectory(paths[k], DirectoryCutAll(g, paths))
    decreases |paths|
  {
    if |paths| == 0 {
      assert g[..|g|] == g;
    } else {
      var g' := g[..DirectoryCommonIndex(g, paths[0])];
      DirectoryCutAllInDirectory(g', paths[1..]);
      var r := DirectoryCutAll(g', paths[1..]);
      InDirectoryTransitive(g, g', r);
      InDirectoryTransitive(paths[0], g', r);
      forall k | 1 <= k < |paths| ensures InDirectory(paths[k], r) {
        assert paths[k] == paths[1..][k - 1];
      }
    }
  }

  /** The intended cut also keeps every directory the two paths have in common. */
  lemma {:induction false} DirectoryCommonIndexKeepsDirectories(g: string, c: string, d: string)
    requires InDirectory(g, d) && InDirectory(c, d) && NoTrailingSeparator(d)
    ensures InDirectory(g[..DirectoryCommonIndex(g, c)], d)
  {
    assert g[..|d|] == d == c[..|d|];
    if 0 < |d| < |g| && |d| < |c| {
      assert g[|d|] == c[|d|];
    }
  }

  lemma {:induction false} DirectoryCutAllKeepsDirectories(g: string, paths: seq<string>, d: string)
    requires InDirectory(g, d) && NoTrailingSeparator(d)
    requires forall k :: 0 <= k < |paths| ==> InDirectory(paths[k], d)
    ensures InDirectory(DirectoryCutAll(g, paths), d)
    decreases |paths|
  {
    if |paths| > 0 {
      DirectoryCommonIndexKeepsDirectories(g, paths[0], d);
      assert forall k :: 0 <= k < |paths| - 1 ==> paths[1..][k] == paths[k + 1];
      DirectoryCutAllKeepsDirectories(g[..DirectoryCommonIndex(g, paths[0])], paths[1..], d);
    }
  }

  /**
   With the intended cut the result is the greatest common directory: every
   path lies in it, and it lies in every other directory (written without a
   trailing separator) that all paths lie in.
   */
  lemma {:induction false} GreatestCommonDirectoryOfGreatest(paths: seq<string>, d: string)
    requires |paths| > 0 && NoTrailingSeparator(d)
    requires forall k :: 0 <= k < |paths| ==> InDirectory(paths[k], d)
    ensures forall k :: 0 <= k < |paths| ==> InDirectory(paths[k], GreatestCommonDirectoryOf(paths))
    ensures InDirectory(GreatestCommonDirectoryOf(paths), d)
  {
    GreatestCommonDirectoryOfInDirectory(paths);
    assert forall k :: 0 <= k < |paths| - 1 ==> paths[1..][k] == paths[k + 1];
    DirectoryCutAllKeepsDirectories(paths[0], paths[1..], d);
  }

  /** For the paths of the finding, the intended cut gives "pkg". */
  lemma {:induction false} GreatestCommonDirectoryOfExample()
    ensures GreatestCommonDirectoryOf(["pkg/a", "pkg/ab"]) == "pkg"
  {
    assert CommonPrefixLength("pkg/a", "pkg/ab") == 5;
    assert LastSeparator("pkg/a", 5) == 3;
    assert "pkg/a"[..3] == "pkg";
  }

  /** With the intended cut, the result is a directory of every path. */
  lemma {:induction false} GreatestCommonDirectoryOfInDirectory(paths: seq<string>)
    ensures forall k :: 0 <= k < |paths| ==> InDirectory(paths[k], GreatestCommonDirectoryOf(paths))
  {
    if |paths| > 0 {
      DirectoryCutAllInDirectory(paths[0], paths[1..]);
      forall k | 1 <= k < |paths| ensures InDirectory(paths[k], GreatestCommonDirectoryOf(paths)) {
        assert paths[k] == paths[1..][k - 1];
      }
    }
  }

  // ---------------------------------------------------------------------------
  // The PATH list

  /** The value of `key`, "" when it is not set (Go's os.Getenv). */
  function Getenv(env: map<string, string>, key: string): string
  {
    if key in env then env[key] else ""
  }

  /** Go's EnvironmentPathList: the entries of PATH; joined with ':' they give PATH back. */
  function EnvironmentPathList(env: map<string, string>): (paths: seq<string>)
    ensures |paths| >= 1
    ensures Join(paths, PathListSeparator) == Getenv(env, EnvironmentPathIdentifier)
    ensures forall k :: 0 <= k < |paths| ==> PathListSeparator !in paths[k]
  {
    var path := Getenv(env, EnvironmentPathIdentifier);
    JoinSegments(path, PathListSeparator);
    SegmentsSeparatorFree(path, PathListSeparator);
    Segments(path, PathListSeparator)
  }

  /** Some term occurs in `p`. */
  predicate Matches(p: string, terms: seq<string>)
  {
    exists k :: 0 <= k < |terms| && Contains(p, terms[k])
  }

  /** The entries of `paths` that contain none of the terms, in their order. */
  function KeepUnmatched(paths: seq<string>, terms: seq<string>): (r: seq<string>)
    ensures |r| <= |paths|
  {
    if |paths| == 0 then []
    else if Matches(paths[0], terms) then KeepUnmatched(paths[1..], terms)
    else [paths[0]] + KeepUnmatched(paths[1..], terms)
  }

  /** Exactly the entries that contain no term are kept. */
  lemma {:induction false} KeepUnmatchedMembers(paths: seq<string>, terms: seq<string>)
    ensures forall x :: x in KeepUnmatched(paths, terms) <==> x in paths && !Matches(x, terms)
  {
    if |paths| > 0 {
      KeepUnmatchedMembers(paths[1..], terms);
      assert paths == [paths[0]] + paths[1..];
    }
  }

  lemma {:induction false} KeepUnmatchedAt(paths: seq<string>, terms: seq<string>, i: nat)
    requires i < |paths|
    ensures KeepUnmatched(paths[i..], terms) ==
      (if Matches(paths[i], terms) then [] else [paths[i]]) + KeepUnmatched(paths[i + 1..], terms)
  {
    assert paths[i..][0] == paths[i] && paths[i..][1..] == paths[i + 1..];
  }

  /** The inner loop of the source: does some term occur in `p`? */
  method ContainsAnyTerm(p: string, terms: seq<string>) returns (hit: bool)
    ensures hit == Matches(p, terms)
  {
    var j := 0;
    while j < |terms|
      invariant 0 <= j <= |terms|
      invariant forall k :: 0 <= k < j ==> !Contains(p, terms[k])
    {
      if Contains(p, terms[j]) {
        return true;
      }
      j := j + 1;
    }
    return false;
  }

  /** The labelled loop of the source: skip every entry that contains a term, join the others with ':'. */
  method RemoveFromEnvironmentPathBySearchTerm(env: map<string, string>, terms: seq<string>) returns (newPath: string)
    ensures newPath == Join(KeepUnmatched(EnvironmentPathList(env), terms), PathListSeparator)
  {
    var entries := EnvironmentPathList(env);
    var kept: seq<string> := [];
    var i := 0;
    while i < |entries|
      invariant 0 <= i <= |entries|
      invariant kept + KeepUnmatched(entries[i..], terms) == KeepUnmatched(entries, terms)
    {
      var p := entries[i];
      var hit := ContainsAnyTerm(p, terms);
      KeepUnmatchedAt(entries, terms, i);
      if !hit {
        ConcatAssociative(kept, [p], KeepUnmatched(entries[i + 1..], terms));
        kept := kept + [p];
      }
      i := i + 1;
    }
    assert entries[i..] == [];
    assert kept + [] == kept;
    newPath := Join(kept, PathListSeparator);
  }

  /** Without search terms PATH comes back unchanged. */
  lemma {:induction false} RemoveNothing(env: map<string, string>)
    ensures Join(KeepUnmatched(EnvironmentPathList(env), []), PathListSeparator) == Getenv(env, EnvironmentPathIdentifier)
  {
    KeepAllUnmatched(EnvironmentPathList(env));
  }

  lemma {:induction false} KeepAllUnmatched(paths: seq<string>)
    ensures KeepUnmatched(paths, []) == paths
  {
    if |paths| > 0 {
      KeepAllUnmatched(paths[1..]);
    }
  }

  /** The empty search term occurs in every entry, so nothing is kept. */
  lemma {:induction false} RemoveEverything(env: map<string, string>, terms: seq<string>)
    requires "" in terms
    ensures Join(KeepUnmatched(EnvironmentPathList(env), terms), PathListSeparator) == ""
  {
    var paths := EnvironmentPathList(env);
    var k :| 0 <= k < |terms| && terms[k] == "";
    forall p | p in paths ensures Matches(p, terms) {
      assert HasPrefix(p, terms[k]);
      assert Contains(p, terms[k]);
    }
    KeepNone(paths, terms);
  }

  lemma {:induction false} KeepNone(paths: seq<string>, terms: seq<string>)
    requires forall p :: p in paths ==> Matches(p, terms)
    ensures KeepUnmatched(paths, terms) == []
  {
    if |paths| > 0 {
      assert paths[0] in paths;
      KeepNone(paths[1..], terms);
    }
  }
}
