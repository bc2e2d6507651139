/**
 Model of permission.go: the permission of the nearest existing ancestor of a
 path, masked for a new directory or a new file. The two external calls are
 parameters: `absolutePath` is what filepath.Abs returned for the path (None
 for an error), and `stat` maps every path os.Stat succeeds on to its mode.
 */
module Permission {
  import opened Wrappers

  /** Go's fs.FileMode, a 32-bit unsigned integer. */
  type FileMode = bv32

  /** fs.ModeDir, the bit os.Stat sets for a directory. */
  const ModeDir: FileMode := 0x8000_0000
  /** Octal 0777: read, write and execute for owner, group and others. */
  const DirectoryMask: FileMode := 0x1FF
  /** Octal 0666: read and write for owner, group and others. */
  const FileMask: FileMode := 0x1B6
  /** Octal 0111: the execute bits. */
  const ExecuteBits: FileMode := 0x49

  /** An absolute path, as filepath.Abs returns one. */
  predicate Absolute(p: string)
  {
    |p| > 0 && p[0] == '/'
  }

  /** Position of the last '/' in an absolute path. */
  function LastSlash(p: string): (i: nat)
    requires Absolute(p)
    ensures i < |p| && p[i] == '/'
    ensures forall j :: i < j < |p| ==> p[j] != '/'
    decreases |p|
  {
    if p[|p| - 1] == '/' then |p| - 1 else LastSlash(p[..|p| - 1])
  }

  /** Go's filepath.Dir of a clean absolute path: everything before the last '/', or "/" when that is the first byte. */
  function Dir(p: string): (d: string)
    requires Absolute(p)
    ensures Absolute(d)
    ensures p != "/" ==> |d| < |p|
  {
    var i := LastSlash(p);
    if i == 0 then "/" else p[..i]
  }

  lemma {:induction false} DirAt(p: string, i: nat)
    requires Absolute(p) && 0 < i < |p| && p[i] == '/'
    requires forall j :: i < j < |p| ==> p[j] != '/'
    ensures Dir(p) == p[..i]
  {
  }

  /** `q` is a directory above `p`: the root, or the part of `p` before one of its inner '/'. */
  predicate IsAncestor(q: string, p: string)
  {
    q == "/" || (0 < |q| < |p| && p[..|q|] == q && p[|q|] == '/')
  }

  /** The directory the loop of the source stats next: the parent, except that the root stays the root. */
  function Parent(p: string): (q: string)
    requires Absolute(p)
    ensures Absolute(q)
  {
    if p != "/" then Dir(p) else p
  }

  /**
   The ancestor whose stat succeeds first on the way up, or None when the loop
   of the source reaches the root and its stat fails: the source then stats
   the root again and again and never returns.
   */
  function StatAncestor(p: string, stat: map<string, FileMode>): (r: Option<string>)
    requires Absolute(p)
    ensures r.Some? ==> r.value in stat
    decreases |p|
  {
    var q := Parent(p);
    if q in stat then Some(q) else if q == "/" then None else StatAncestor(q, stat)
  }

  /** The ancestors of a path are its Dir and the ancestors of its Dir, which are not longer than the Dir. */
  lemma {:induction false} DirAncestors(p: string)
    requires Absolute(p) && p != "/"
    ensures IsAncestor(Dir(p), p)
    ensures forall q :: IsAncestor(q, p) <==> q == Dir(p) || IsAncestor(q, Dir(p))
    ensures forall q :: IsAncestor(q, Dir(p)) ==> |q| <= |Dir(p)|
  {
    var i := LastSlash(p);
    var d := Dir(p);
    forall q | IsAncestor(q, p) && q != "/" ensures q == d || IsAncestor(q, d) {
      var j := |q|;
      assert p[j] == '/';
      if j < i {
        assert d == p[..i];
        assert d[..j] == q && d[j] == '/';
      } else {
        assert j == i;
      }
    }
    forall q | IsAncestor(q, d) && q != "/" ensures IsAncestor(q, p) {
      assert d == p[..i];
      assert p[..|q|] == d[..|q|];
    }
  }

  /**
   The walk finds the LONGEST ancestor that stat succeeds on, never the path
   itself unless it is the root, and finds none exactly when stat fails on
   every ancestor, the root included.
   */
  lemma {:induction false} StatAncestorNearest(p: string, stat: map<string, FileMode>)
    requires Absolute(p)
    ensures StatAncestor(p, stat).Some? ==>
      var a := StatAncestor(p, stat).value;
      a in stat && IsAncestor(a, p) && forall q :: IsAncestor(q, p) && |q| > |a| ==> q !in stat
    ensures StatAncestor(p, stat).None? <==> forall q :: IsAncestor(q, p) ==> q !in stat
    decreases |p|
  {
    if p == "/" {
      assert forall q :: IsAncestor(q, p) ==> q == "/";
    } else {
      var d := Dir(p);
      DirAncestors(p);
      if d !in stat && d != "/" {
        StatAncestorNearest(d, stat);
      }
    }
  }

  /** The loop of the source, which stats the parent, the grandparent and so on. */
  method StatParent(path: string, stat: map<string, FileMode>) returns (found: Option<string>)
    requires Absolute(path)
    ensures found == StatAncestor(path, stat)
  {
    var p := path;
    while true
      invariant Absolute(p)
      invariant StatAncestor(p, stat) == StatAncestor(path, stat)
      decreases |p|
    {
      if p != "/" {
        p := Dir(p);
      }
      if p in stat {
        return Some(p);
      }
      if p == "/" {
        // The source keeps statting "/" here without end.
        return None;
      }
    }
  }

  /** The outcome of either function: a permission, the error of filepath.Abs, or no return at all. */
  datatype ParentPermission = Permission(mode: FileMode) | AbsError | RetriesForever

  /** The mode of the nearest ancestor that stat succeeds on, masked with `mask`. */
  function PermissionOfParent(absolutePath: Option<string>, stat: map<string, FileMode>, mask: FileMode): ParentPermission
    requires absolutePath.Some? ==> Absolute(absolutePath.value)
  {
    match absolutePath
    case None => AbsError
    case Some(p) =>
      match StatAncestor(p, stat)
      case None => RetriesForever
      case Some(a) => Permission(0 | (stat[a] & mask))
  }

  method PermissionOf(absolutePath: Option<string>, stat: map<string, FileMode>, mask: FileMode) returns (r: ParentPermission)
    requires absolutePath.Some? ==> Absolute(absolutePath.value)
    ensures r == PermissionOfParent(absolutePath, stat, mask)
  {
    if absolutePath.None? {
      return AbsError;
    }
    var found := StatParent(absolutePath.value, stat);
    if found.None? {
      return RetriesForever;
    }
    var permission: FileMode := 0;
    permission := permission | (stat[found.value] & mask);
    return Permission(permission);
  }

  /** DirectoryPermissionOfParent: the read, write and execute bits of the nearest existing ancestor. */
  method DirectoryPermissionOfParent(absolutePath: Option<string>, stat: map<string, FileMode>) returns (r: ParentPermission)
    requires absolutePath.Some? ==> Absolute(absolutePath.value)
    ensures r == PermissionOfParent(absolutePath, stat, DirectoryMask)
    ensures r.Permission? ==> r.mode & !DirectoryMask == 0
  {
    r := PermissionOf(absolutePath, stat, DirectoryMask);
  }

  /** FilePermissionOfParent: the read and write bits of the nearest existing ancestor, never an execute bit. */
  method FilePermissionOfParent(absolutePath: Option<string>, stat: map<string, FileMode>) returns (r: ParentPermission)
    requires absolutePath.Some? ==> Absolute(absolutePath.value)
    ensures r == PermissionOfParent(absolutePath, stat, FileMask)
    ensures r.Permission? ==> r.mode & !FileMask == 0 && r.mode & ExecuteBits == 0
  {
    r := PermissionOf(absolutePath, stat, FileMask);
  }

  /** For the same path and file system, the file permission is the directory permission without execute bits. */
  lemma {:induction false} FileIsDirectoryWithoutExecute(absolutePath: Option<string>, stat: map<string, FileMode>)
    requires absolutePath.Some? ==> Absolute(absolutePath.value)
    ensures var d := PermissionOfParent(absolutePath, stat, DirectoryMask);
      var f := PermissionOfParent(absolutePath, stat, FileMask);
      (d.Permission? <==> f.Permission?) &&
      (d.Permission? ==> f.mode == d.mode & FileMask && f.mode == d.mode & !ExecuteBits) &&
      (!d.Permission? ==> f == d)
  {
  }

  /** The cases of the tests of the source: a parent directory with mode 0700, 0770 or 0777. */
  lemma {:induction false} PermissionExamples(stat: map<string, FileMode>)
    requires stat == map["/tmp/x/user" := ModeDir | 0x1C0, "/tmp/x/group" := ModeDir | 0x1F8, "/tmp/x/all" := ModeDir | 0x1FF]
    ensures PermissionOfParent(Some("/tmp/x/user/child"), stat, DirectoryMask) == Permission(0x1C0)
    ensures PermissionOfParent(Some("/tmp/x/user/child"), stat, FileMask) == Permission(0x180)
    ensures PermissionOfParent(Some("/tmp/x/group/child"), stat, FileMask) == Permission(0x1B0)
    ensures PermissionOfParent(Some("/tmp/x/all/child"), stat, DirectoryMask) == Permission(0x1FF)
    ensures PermissionOfParent(Some("/tmp/x/all/child"), stat, FileMask) == Permission(0x1B6)
    ensures PermissionOfParent(Some("/tmp/x/all/child"), map[], FileMask) == RetriesForever
  {
    DirAt("/tmp/x/user/child", 11);
    assert "/tmp/x/user/child"[..11] == "/tmp/x/user";
    assert StatAncestor("/tmp/x/user/child", stat) == Some("/tmp/x/user");
    DirAt("/tmp/x/group/child", 12);
    assert "/tmp/x/group/child"[..12] == "/tmp/x/group";
    assert StatAncestor("/tmp/x/group/child", stat) == Some("/tmp/x/group");
    DirAt("/tmp/x/all/child", 10);
    assert "/tmp/x/all/child"[..10] == "/tmp/x/all";
    assert StatAncestor("/tmp/x/all/child", stat) == Some("/tmp/x/all");
    StatAncestorNearest("/tmp/x/all/child", map[]);
  }
}
