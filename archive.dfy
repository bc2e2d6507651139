/**
 Model of the decisions in archive.go that do not touch the file system: which
 extractor a file name is routed to, which compression a TAR archive is read
 with, and which entry names a TAR archive may contain.
 */
module Archive {
  import opened Splitter
  import opened Strings

  /** Go's CompressionType constants. */
  datatype CompressionType = CompressionTypeNone | CompressionTypeGNUZipped | CompressionTypeXZ

  /** The string value of each CompressionType constant. */
  function CompressionName(c: CompressionType): string
  {
    match c
    case CompressionTypeNone => ""
    case CompressionTypeGNUZipped => "gz"
    case CompressionTypeXZ => "xz"
  }

  /** What ExtractFile does with an archive name: extract a TAR or a ZIP file, or fail with "unknown compression". */
  datatype Extraction = TarExtraction(compression: CompressionType) | ZipExtraction | UnknownCompression(name: string)

  /** The compression TarExtractFile reads an archive with: XZ for a name ending in ".xz", GNU zip otherwise. */
  function TarCompression(archiveFilePath: string): (c: CompressionType)
    ensures c != CompressionTypeNone
    ensures c == CompressionTypeXZ <==> HasSuffix(archiveFilePath, ".xz")
  {
    if HasSuffix(archiveFilePath, ".xz") then CompressionTypeXZ else CompressionTypeGNUZipped
  }

  /** The routing of ExtractFile, with the compression that TarExtractFile then picks. */
  function ExtractFile(archiveFilePath: string): (e: Extraction)
  {
    if HasSuffix(archiveFilePath, ".tar.gz") || HasSuffix(archiveFilePath, ".tar.xz") then
      TarExtraction(TarCompression(archiveFilePath))
    else if HasSuffix(archiveFilePath, ".zip") then
      ZipExtraction
    else
      UnknownCompression(archiveFilePath)
  }

  /**
   Exactly the ".tar.gz" names are read as GNU-zipped TAR archives, exactly
   the ".tar.xz" names as XZ-compressed ones, exactly the ".zip" names as ZIP
   files, and every other name is an unknown compression.
   */
  lemma {:induction false} ExtractFileRouting(archiveFilePath: string)
    ensures ExtractFile(archiveFilePath) == TarExtraction(CompressionTypeGNUZipped) <==> HasSuffix(archiveFilePath, ".tar.gz")
    ensures ExtractFile(archiveFilePath) == TarExtraction(CompressionTypeXZ) <==> HasSuffix(archiveFilePath, ".tar.xz")
    ensures ExtractFile(archiveFilePath) == ZipExtraction <==> HasSuffix(archiveFilePath, ".zip")
    ensures ExtractFile(archiveFilePath).UnknownCompression? <==>
      !HasSuffix(archiveFilePath, ".tar.gz") && !HasSuffix(archiveFilePath, ".tar.xz") && !HasSuffix(archiveFilePath, ".zip")
  {
    var n := |archiveFilePath|;
    if HasSuffix(archiveFilePath, ".tar.gz") {
      assert archiveFilePath[n - 2] == 'g';
    }
    if HasSuffix(archiveFilePath, ".tar.xz") {
      assert archiveFilePath[n - 2] == 'x';
      assert archiveFilePath[n - 3..] == ".xz";
    }
    if HasSuffix(archiveFilePath, ".zip") {
      assert archiveFilePath[n - 1] == 'p';
    }
  }

  /** Some occurrence of "../" in `p`. */
  ghost predicate HasDotDotSlash(p: string)
  {
    exists j: nat :: OccursAt(p, "../", j)
  }

  /** Go's validRelPath: the entry names a TAR archive may contain. */
  predicate ValidRelPath(p: string)
  {
    !(p == "" || Contains(p, "\\") || HasPrefix(p, "/") || Contains(p, "../"))
  }

  lemma {:induction false} ContainsOccurs(p: string, pat: string)
    ensures Contains(p, pat) <==> exists j: nat :: OccursAt(p, pat, j)
  {
  }

  lemma {:induction false} ContainsBackslash(p: string)
    ensures Contains(p, "\\") <==> '\\' in p
  {
    ContainsOccurs(p, "\\");
    if Contains(p, "\\") {
      var j: nat :| OccursAt(p, "\\", j);
      assert p[j] == p[j..j + 1][0];
    }
    if '\\' in p {
      var j :| 0 <= j < |p| && p[j] == '\\';
      assert OccursAt(p, "\\", j);
    }
  }

  /** "../" occurs at `j` exactly when the three characters from `j` on are '.', '.' and '/'. */
  lemma {:induction false} DotDotSlashAt(p: string, j: nat)
    ensures OccursAt(p, "../", j) <==> j + 3 <= |p| && p[j] == '.' && p[j + 1] == '.' && p[j + 2] == '/'
  {
    if j + 3 <= |p| && p[j] == '.' && p[j + 1] == '.' && p[j + 2] == '/' {
      assert p[j..j + 3] == "../";
    }
  }

  /** A string ends in ".." exactly when its last two characters are dots. */
  lemma {:induction false} DotDotSuffix(s: string)
    ensures HasSuffix(s, "..") <==> |s| >= 2 && s[|s| - 2] == '.' && s[|s| - 1] == '.'
  {
    if |s| >= 2 && s[|s| - 2] == '.' && s[|s| - 1] == '.' {
      assert s[|s| - 2..] == "..";
    }
  }

  /** An occurrence of "../" in `s0 + "/" + t`, with no '/' in `s0`, ends `s0` or lies in `t`. */
  lemma {:induction false} DotDotSlashSplit(s0: string, t: string)
    requires '/' !in s0
    ensures HasDotDotSlash(s0 + "/" + t) <==> HasSuffix(s0, "..") || HasDotDotSlash(t)
  {
    if HasSuffix(s0, "..") {
      DotDotSlashOfSuffix(s0, t);
    }
    if HasDotDotSlash(t) {
      DotDotSlashOfTail(s0, t);
    }
    if HasDotDotSlash(s0 + "/" + t) {
      DotDotSlashOfWhole(s0, t);
    }
  }

  lemma {:induction false} DotDotSlashOfSuffix(s0: string, t: string)
    requires HasSuffix(s0, "..")
    ensures HasDotDotSlash(s0 + "/" + t)
  {
    var p := s0 + "/" + t;
    var n := |s0|;
    DotDotSuffix(s0);
    assert p[n - 2] == s0[n - 2] && p[n - 1] == s0[n - 1] && p[n] == '/';
    DotDotSlashAt(p, n - 2);
  }

  lemma {:induction false} DotDotSlashOfTail(s0: string, t: string)
    requires HasDotDotSlash(t)
    ensures HasDotDotSlash(s0 + "/" + t)
  {
    var p := s0 + "/" + t;
    var n := |s0|;
    var j: nat :| OccursAt(t, "../", j);
    DotDotSlashAt(t, j);
    assert p[n + 1 + j] == t[j] && p[n + 2 + j] == t[j + 1] && p[n + 3 + j] == t[j + 2];
    DotDotSlashAt(p, n + 1 + j);
  }

  lemma {:induction false} DotDotSlashOfWhole(s0: string, t: string)
    requires '/' !in s0 && HasDotDotSlash(s0 + "/" + t)
    ensures HasSuffix(s0, "..") || HasDotDotSlash(t)
  {
    var p := s0 + "/" + t;
    var n := |s0|;
    var j: nat :| OccursAt(p, "../", j);
    DotDotSlashAt(p, j);
    assert p[n] == '/';
    if j > n {
      assert t[j - n - 1] == p[j] && t[j - n] == p[j + 1] && t[j - n + 1] == p[j + 2];
      DotDotSlashAt(t, j - n - 1);
    } else if j + 2 == n {
      assert s0[n - 2] == p[j] && s0[n - 1] == p[j + 1];
      DotDotSuffix(s0);
    }
  }

  lemma {:induction false} NoSlashNoDotDotSlash(p: string)
    requires '/' !in p
    ensures !HasDotDotSlash(p)
  {
    forall j: nat ensures !OccursAt(p, "../", j) {
      if j + 3 <= |p| {
        assert p[j..j + 3][2] == p[j + 2];
      }
    }
  }

  /** A component other than the last one ends in "..". */
  ghost predicate DotDotBeforeLast(c: seq<string>)
  {
    exists k :: 0 <= k < |c| - 1 && HasSuffix(c[k], "..")
  }

  lemma {:induction false} DotDotBeforeLastCons(s0: string, ct: seq<string>)
    requires |ct| >= 1
    ensures DotDotBeforeLast([s0] + ct) <==> HasSuffix(s0, "..") || DotDotBeforeLast(ct)
  {
    var c := [s0] + ct;
    if HasSuffix(s0, "..") {
      assert c[0] == s0;
    }
    if DotDotBeforeLast(ct) {
      var k :| 0 <= k < |ct| - 1 && HasSuffix(ct[k], "..");
      assert c[k + 1] == ct[k];
    }
    if DotDotBeforeLast(c) {
      var k :| 0 <= k < |c| - 1 && HasSuffix(c[k], "..");
      if k > 0 {
        var m := k - 1;
        assert ct[m] == c[k];
        assert 0 <= m < |ct| - 1 && HasSuffix(ct[m], "..");
      } else {
        assert c[0] == s0;
      }
    }
  }

  /** "../" occurs in a path exactly when a component other than the last ends in "..". */
  lemma {:induction false} DotDotSlashComponents(p: string)
    ensures HasDotDotSlash(p) <==> DotDotBeforeLast(Segments(p, '/'))
    decreases |p|
  {
    var i := IndexOf(p, '/');
    if i == |p| {
      assert Segments(p, '/') == [p];
      NoSlashNoDotDotSlash(p);
    } else {
      var s0, t := p[..i], p[i + 1..];
      assert p == s0 + "/" + t;
      DotDotSlashSplit(s0, t);
      DotDotSlashComponents(t);
      assert Segments(p, '/') == [s0] + Segments(t, '/');
      DotDotBeforeLastCons(s0, Segments(t, '/'));
    }
  }

  /**
   The accepted names: non-empty, no backslash, not starting with '/', and no
   component except the last ending in "..". A last component ".." is
   accepted, and so is a component like "a.." only when it is the last one.
   */
  lemma {:induction false} ValidRelPathComponents(p: string)
    ensures ValidRelPath(p) <==>
      p != "" && '\\' !in p && p[0] != '/' &&
      forall k :: 0 <= k < |Segments(p, '/')| - 1 ==> !HasSuffix(Segments(p, '/')[k], "..")
  {
    ContainsBackslash(p);
    ContainsOccurs(p, "../");
    DotDotSlashComponents(p);
  }

  lemma {:induction false} AcceptedName(p: string)
    requires p != "" && '\\' !in p && p[0] != '/'
    requires forall j :: 0 <= j && j + 3 <= |p| ==> p[j] != '.' || p[j + 1] != '.' || p[j + 2] != '/'
    ensures ValidRelPath(p)
  {
    ContainsBackslash(p);
    ContainsOccurs(p, "../");
    forall j: nat ensures !OccursAt(p, "../", j) {
      if j + 3 <= |p| {
        assert p[j..j + 3][0] == p[j] && p[j..j + 3][1] == p[j + 1] && p[j..j + 3][2] == p[j + 2];
      }
    }
  }

  /** Accepted entry names, a bare ".." and a trailing "/.." among them. */
  lemma {:induction false} ValidRelPathAccepted()
    ensures ValidRelPath("..") && ValidRelPath("a/..") && ValidRelPath("a/b")
  {
    AcceptedName("..");
    AcceptedName("a/..");
    AcceptedName("a/b");
  }

  /** Rejected entry names: empty, absolute, with a backslash, and with a "../" anywhere. */
  lemma {:induction false} ValidRelPathRejected()
    ensures !ValidRelPath("") && !ValidRelPath("/a") && !ValidRelPath("a\\b")
    ensures !ValidRelPath("../a") && !ValidRelPath("a/../b")
  {
    ContainsBackslash("a\\b");
    assert OccursAt("../a", "../", 0);
    ContainsOccurs("../a", "../");
    assert OccursAt("a/../b", "../", 2);
    ContainsOccurs("a/../b", "../");
  }
}
