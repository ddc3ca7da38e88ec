/**
 * The host filesystem as `node:fs` presents it to the plugins: regular files with their text
 * and a set of directories, both keyed by absolute path.
 */
module FileSystem {
  import opened Wrappers
  import opened Paths

  datatype Fs = Fs(files: map<Path, string>, dirs: set<Path>)

  /** The errors `node:fs` throws in the calls the plugins make (EISDIR, ENOENT, ENOTDIR/EEXIST). */
  datatype FsError = IsADirectory(path: Path) | NoSuchFile(path: Path) | NotADirectory(path: Path)

  /**
   * A filesystem the operating system could present: the root exists, the parent of every entry
   * is a directory, and no path is both a file and a directory.
   */
  ghost predicate WellFormed(fs: Fs) {
    && [] in fs.dirs
    && (forall p :: p in fs.files ==> p != [] && Dirname(p) in fs.dirs && p !in fs.dirs)
    && (forall d :: d in fs.dirs && d != [] ==> Dirname(d) in fs.dirs)
  }

  /** `fs.existsSync(p)`. */
  predicate Exists(fs: Fs, p: Path) {
    p in fs.files || p in fs.dirs
  }

  /** `fs.existsSync(p) && fs.statSync(p).isDirectory()`. */
  predicate IsDirectory(fs: Fs, p: Path) {
    p in fs.dirs
  }

  /** `fs.readFileSync(p, 'utf-8')`. */
  function ReadFile(fs: Fs, p: Path): Result<string, FsError> {
    if p in fs.dirs then Failure(IsADirectory(p))
    else if p in fs.files then Success(fs.files[p])
    else Failure(NoSuchFile(p))
  }

  /** `fs.writeFileSync(p, content)`: creates or truncates a file whose parent is a directory. */
  function WriteFile(fs: Fs, p: Path, content: string): Result<Fs, FsError> {
    if p in fs.dirs then Failure(IsADirectory(p))
    else if Dirname(p) !in fs.dirs then
      Failure(if Dirname(p) in fs.files then NotADirectory(p) else NoSuchFile(p))
    else Success(fs.(files := fs.files[p := content]))
  }

  /** The path itself and every directory above it, up to the root. */
  function Ancestors(p: Path): set<Path> {
    set i | 0 <= i <= |p| :: p[..i]
  }

  /** `fs.mkdirSync(p, { recursive: true })`: fails when the path or one of its ancestors is a file. */
  function MkdirRecursive(fs: Fs, p: Path): Result<Fs, FsError> {
    if exists i :: 0 <= i <= |p| && p[..i] in fs.files then Failure(NotADirectory(p))
    else Success(fs.(dirs := fs.dirs + Ancestors(p)))
  }

  /** `fs.rmSync(p, { force: true })`: a missing path is no error, a directory is. */
  function RemoveFile(fs: Fs, p: Path): Result<Fs, FsError> {
    if p in fs.dirs then Failure(IsADirectory(p))
    else Success(fs.(files := fs.files - {p}))
  }

  /** The entries `fs.readdirSync(d)` lists. */
  function Children(fs: Fs, d: Path): set<Path> {
    set p | p in fs.files.Keys + fs.dirs && |p| == |d| + 1 && p[..|d|] == d
  }

  /** `fs.readdirSync(d).length === 0`. */
  function IsEmptyDir(fs: Fs, d: Path): Result<bool, FsError> {
    if d in fs.files then Failure(NotADirectory(d))
    else if d !in fs.dirs then Failure(NoSuchFile(d))
    else Success(Children(fs, d) == {})
  }

  /** `fs.rmSync(d, { force: true, recursive: true })`: `d` and everything below it. */
  function RemoveTree(fs: Fs, d: Path): Fs {
    Fs(map p | p in fs.files && !IsPrefix(d, p) :: fs.files[p],
       set p | p in fs.dirs && !IsPrefix(d, p))
  }

  /** Every directory above an entry of a well-formed filesystem exists. */
  lemma {:induction false} AncestorIsDirectory(fs: Fs, q: Path, k: nat)
    requires WellFormed(fs)
    requires q in fs.files || q in fs.dirs
    requires k < |q| || (k == |q| && q in fs.dirs)
    ensures q[..k] in fs.dirs
    decreases |q| - k
  {
    if k < |q| {
      var parent := Dirname(q);
      assert parent in fs.dirs;
      if k < |parent| {
        AncestorIsDirectory(fs, parent, k);
      }
      assert parent[..k] == q[..k];
    } else {
      assert q[..k] == q;
    }
  }

  lemma WriteFileKeepsWellFormed(fs: Fs, p: Path, content: string)
    requires WellFormed(fs)
    requires WriteFile(fs, p, content).Success?
    ensures WellFormed(WriteFile(fs, p, content).value)
  {
  }

  lemma RemoveFileKeepsWellFormed(fs: Fs, p: Path)
    requires WellFormed(fs)
    requires RemoveFile(fs, p).Success?
    ensures WellFormed(RemoveFile(fs, p).value)
  {
  }

  /** A successful `mkdir -p` leaves a well-formed filesystem in which the directory exists. */
  lemma MkdirKeepsWellFormed(fs: Fs, p: Path)
    requires WellFormed(fs)
    requires MkdirRecursive(fs, p).Success?
    ensures var fs' := MkdirRecursive(fs, p).value;
      WellFormed(fs') && p in fs'.dirs && fs'.files == fs.files && fs.dirs <= fs'.dirs
  {
    var fs' := MkdirRecursive(fs, p).value;
    assert p[..|p|] == p;
    forall d | d in fs'.dirs && d != []
      ensures Dirname(d) in fs'.dirs
    {
      if d !in fs.dirs {
        var i :| 0 <= i <= |p| && d == p[..i];
        assert Dirname(d) == p[..i - 1];
      }
    }
    forall q | q in fs'.files
      ensures q !in fs'.dirs
    {
      assert q !in fs.dirs;
      assert forall i :: 0 <= i <= |p| ==> p[..i] !in fs.files;
    }
  }

  /** The entry one level below `d` on the way to a descendant `q` is listed by `readdir(d)`. */
  lemma ChildOnTheWay(fs: Fs, d: Path, q: Path)
    requires WellFormed(fs)
    requires q in fs.files || q in fs.dirs
    ensures IsPrefix(d, q) && q != d ==> q[..|d| + 1] in Children(fs, d)
  {
    if IsPrefix(d, q) && q != d {
      assert |q| > |d|;
      if |q| > |d| + 1 {
        AncestorIsDirectory(fs, q, |d| + 1);
      } else {
        assert q[..|d| + 1] == q;
      }
      assert q[..|d| + 1][..|d|] == d;
    }
  }

  /** Removing an empty directory (not the root) removes only that directory. */
  lemma RemoveEmptyDirectory(fs: Fs, d: Path)
    requires WellFormed(fs)
    requires d in fs.dirs && d != []
    requires Children(fs, d) == {}
    ensures RemoveTree(fs, d) == fs.(dirs := fs.dirs - {d})
    ensures WellFormed(RemoveTree(fs, d))
  {
    var r := RemoveTree(fs, d);
    forall q | q in fs.files || q in fs.dirs
      ensures IsPrefix(d, q) ==> q == d
    {
      ChildOnTheWay(fs, d, q);
    }
    assert IsPrefix(d, d);
    assert r.files == fs.files;
    assert r.dirs == fs.dirs - {d};
    forall e | e in r.dirs && e != []
      ensures Dirname(e) in r.dirs
    {
      assert e[..|Dirname(e)|] == Dirname(e);
    }
  }
}
