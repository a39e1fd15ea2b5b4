/**
 The string handling of the `find` user program: `fmtname`, which returns
 the last component of a path, and the decisions `find` takes on each file
 and directory entry: whether a file is reported, which entries are skipped,
 when a path is too long to descend into, and the child path it builds.
 */
module Find {
  import opened Collections
  import opened CString

  /** The length of a directory entry's name field. */
  const DIRSIZ: nat := 14
  /** The size of find's path buffer. */
  const PATHBUF: nat := 512

  /** The last component of `path`: the piece after its last '/'. */
  function Basename(path: string): string
  {
    Split(path, '/')[|Split(path, '/')| - 1]
  }

  /** Where fmtname's result lives: a suffix of the caller's path, or fmtname's static buffer. */
  datatype NamePtr = InPath(off: nat) | StaticBuf

  /** The string the caller reads through the pointer fmtname returned. */
  function Deref(buf: seq<char>, path: string, r: NamePtr): string
  {
    match r
    case InPath(off) => if off <= |path| then path[off..] else []
    case StaticBuf => CStr(buf)
  }

  /**
   The backwards scan of fmtname: from the terminating NUL down to the
   last '/' (or to just before the start), then one step forward.
   */
  method NameStart(path: string) returns (start: nat)
    ensures start <= |path|
    ensures '/' !in path[start..]
    ensures start == 0 || path[start - 1] == '/'
  {
    var p: int := |path|;
    while p >= 0 && (p == |path| || path[p] != '/')
      invariant -1 <= p <= |path|
      invariant forall k :: p < k < |path| ==> path[k] != '/'
      decreases p
    {
      p := p - 1;
    }
    start := p + 1;
  }

  /** The scan stops exactly at the start of the last component. */
  lemma SuffixIsBasename(path: string, start: nat)
    requires start <= |path| && '/' !in path[start..]
    requires start == 0 || path[start - 1] == '/'
    ensures Basename(path) == path[start..]
  {
    if start == 0 {
      assert path[start..] == path;
    } else {
      assert path == path[..start - 1] + ['/'] + path[start..];
      SplitLast(path[..start - 1], path[start..], '/');
    }
  }

  /**
   fmtname(path) with its static buffer `buf`: a last component of DIRSIZ or
   more characters is returned in place, a shorter one is copied with its NUL
   into the buffer, whose later bytes keep their old contents.
   */
  method Fmtname(buf: seq<char>, path: string) returns (buf': seq<char>, r: NamePtr)
    requires |buf| == DIRSIZ + 1 && NulFree(path)
    ensures |buf'| == DIRSIZ + 1
    ensures Deref(buf', path, r) == Basename(path)
    ensures r.InPath? <==> |Basename(path)| >= DIRSIZ
    ensures r.InPath? ==> buf' == buf && r.off + |Basename(path)| == |path|
    ensures r.StaticBuf? ==> buf'[|Basename(path)| + 1..] == buf[|Basename(path)| + 1..]
  {
    var start := NameStart(path);
    SuffixIsBasename(path, start);
    var name := path[start..];
    if |name| >= DIRSIZ {
      return buf, InPath(start);
    }
    assert NulFree(name) by {
      assert forall k :: 0 <= k < |name| ==> name[k] == path[start + k];
    }
    buf' := name + [NUL] + buf[|name| + 1..];
    r := StaticBuf;
    CStrOfTerminated(buf', name);
  }

  /** The result never contains '/', and the path is its directory part, a '/', then the result. */
  lemma BasenameIsLastComponent(path: string)
    ensures '/' !in Basename(path)
    ensures '/' !in path ==> Basename(path) == path
    ensures '/' in path ==> exists dir :: path == dir + ['/'] + Basename(path)
  {
    var ps := Split(path, '/');
    JoinSplit(path, '/');
    if |ps| > 1 {
      var dir := Join(ps[..|ps| - 1], '/');
      JoinLast(ps, '/');
      assert path == dir + ['/'] + Basename(path);
    }
  }

  /** The last component of a path built as dir + '/' + name is name. */
  lemma BasenameOfChild(dir: string, name: string)
    requires '/' !in name
    ensures Basename(dir + ['/'] + name) == name
  {
    SplitLast(dir, name, '/');
  }

  /** True iff find reports the plain file `path` when looking for `fileName`. */
  function Reports(path: string, fileName: string): bool
  {
    Strcmp(Basename(path), fileName) == 0
  }

  /** find reports a file exactly when its last path component is the name sought. */
  lemma ReportsIff(path: string, fileName: string)
    requires NulFree(path) && NulFree(fileName)
    ensures Reports(path, fileName) <==> Basename(path) == fileName
  {
    assert NulFree(Basename(path)) by {
      BasenameIsLastComponent(path);
      if '/' in path {
        var dir :| path == dir + ['/'] + Basename(path);
        assert forall k :: 0 <= k < |Basename(path)| ==> Basename(path)[k] == path[|dir| + 1 + k];
      }
    }
    StrcmpZeroIff(Basename(path), fileName);
  }

  /** A directory entry: an inode number and DIRSIZ name bytes, NUL-padded when shorter. */
  datatype Dirent = Dirent(inum: nat, name: seq<char>)

  /** True iff find passes over the entry: a free slot, "." or "..". */
  function Skips(de: Dirent): bool
  {
    de.inum == 0 || Strcmp(de.name, ".") == 0 || Strcmp(de.name, "..") == 0
  }

  /** An entry is skipped exactly when it is free or names the directory itself or its parent. */
  lemma SkipsIff(de: Dirent)
    ensures Skips(de) <==> de.inum == 0 || CStr(de.name) == "." || CStr(de.name) == ".."
  {
    StrcmpReadsCStr(de.name, ".");
    StrcmpReadsCStr(de.name, "..");
    CStrOfNulFree(".");
    CStrOfNulFree("..");
    StrcmpZeroIff(CStr(de.name), ".");
    StrcmpZeroIff(CStr(de.name), "..");
  }

  /**
   The path buffer find builds for an entry of directory `path`: None when
   the path is too long to descend, else the path, '/', the DIRSIZ name bytes
   and a NUL (the bytes after it are not modelled).
   */
  function ChildPath(path: string, de: Dirent): (r: Option<seq<char>>)
    requires NulFree(path) && |de.name| == DIRSIZ
    ensures r.None? <==> |path| + 1 + DIRSIZ + 1 > PATHBUF
    ensures r.Some? ==> |r.value| <= PATHBUF
    ensures r.Some? ==> CStr(r.value) == path + ['/'] + CStr(de.name)
  {
    if |path| + 1 + DIRSIZ + 1 > PATHBUF then None
    else
      var b := path + ['/'] + de.name + [NUL];
      ChildCStr(path, de.name);
      Some(b)
  }

  lemma ChildCStr(path: string, name: seq<char>)
    requires NulFree(path)
    ensures CStr(path + ['/'] + name + [NUL]) == path + ['/'] + CStr(name)
  {
    var b := path + ['/'] + name + [NUL];
    var s := path + ['/'] + CStr(name);
    var n := |CStr(name)|;
    assert b[..|s|] == s by {
      assert b[..|path| + 1] == path + ['/'];
      assert b[|path| + 1..|s|] == name[..n];
    }
    assert b[|s|] == NUL by {
      if n < |name| {
        assert b[|s|] == name[n];
      }
    }
    assert NulFree(s) by {
      assert forall k :: 0 <= k < |s| ==> (k < |path| ==> s[k] == path[k]);
    }
    CStrOfTerminated(b, s);
  }

  /**
   Descending into directory `path`, find reports the entry's file exactly
   when the entry's name is the name sought.
   */
  lemma ChildReportedIff(path: string, de: Dirent, fileName: string)
    requires NulFree(path) && NulFree(fileName) && |de.name| == DIRSIZ && '/' !in CStr(de.name)
    requires ChildPath(path, de).Some?
    ensures Reports(CStr(ChildPath(path, de).value), fileName) <==> CStr(de.name) == fileName
  {
    var child := CStr(ChildPath(path, de).value);
    BasenameOfChild(path, CStr(de.name));
    ReportsIff(child, fileName);
  }
}
