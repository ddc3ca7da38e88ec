/**
 * The backup ledger of the build plugin (packages/builder/src/plugins/builder-plugin.ts).
 *
 * The `config` hook writes one generated HTML file per DSL module into the package directory.
 * Before each write it records in `fileBackups` what the target held (or that it did not
 * exist), and it records in `createdDirs` the directory it had to create. `buildEnd` plays the
 * ledger back: it restores or deletes every recorded file and then removes the recorded
 * directories that are empty, longest path first.
 *
 * This module states both phases as functions of the filesystem and the ledger; the plugin
 * class in `BuilderPlugin` is proved to follow them step by step.
 */
module Materializer {
  import opened Wrappers
  import opened Paths
  import opened FileSystem
  import opened JsCollections

  /** The filesystem together with the two ledgers, `fileBackups` and `createdDirs`. */
  datatype Tx = Tx(fs: Fs, backups: OrderedMap<Path, Option<string>>, created: seq<Path>)

  /** The state after a staging step and whether it completed or threw. */
  datatype Staged = Staged(tx: Tx, outcome: Outcome<FsError>)

  /** The filesystem after a rollback step and whether it completed or threw. */
  datatype Applied = Applied(fs: Fs, outcome: Outcome<FsError>)

  /** One generated file: where it goes and what it holds. */
  datatype Job = Job(entry: Path, content: string)

  /** What the ledger records for `p`: its text, or None when no file is there. */
  function Original(fs: Fs, p: Path): Option<string> {
    if p in fs.files then Some(fs.files[p]) else None
  }

  /** `fs.writeFileSync(entry, content)` inside a staging step. */
  function Write(tx: Tx, entry: Path, content: string): Staged {
    match WriteFile(tx.fs, entry, content)
    case Failure(e) => Staged(tx, Fail(e))
    case Success(fs) => Staged(tx.(fs := fs), Pass)
  }

  /**
   * One DSL module of the `config` hook (lines 118-154): back up the target, create its
   * directory if it is missing and record that directory, then write the file. Reading a
   * directory as the target throws before anything is recorded; a later failure leaves what
   * was recorded so far.
   */
  function StageFile(tx: Tx, entry: Path, content: string): Staged {
    if IsDirectory(tx.fs, entry) then Staged(tx, Fail(IsADirectory(entry)))
    else
      var tx1 := tx.(backups := tx.backups.Set(entry, Original(tx.fs, entry)));
      var dir := Dirname(entry);
      if Exists(tx1.fs, dir) then Write(tx1, entry, content)
      else
        match MkdirRecursive(tx1.fs, dir)
        case Failure(e) => Staged(tx1, Fail(e))
        case Success(fs2) => Write(tx1.(fs := fs2, created := Add(tx1.created, dir)), entry, content)
  }

  /** The modules one after the other; the first step that throws ends the hook. */
  function StageAll(tx: Tx, jobs: seq<Job>): Staged
    decreases |jobs|
  {
    if jobs == [] then Staged(tx, Pass)
    else
      var s := StageFile(tx, jobs[0].entry, jobs[0].content);
      if s.outcome.Fail? then s else StageAll(s.tx, jobs[1..])
  }

  /** Staging one list after another is staging their concatenation. */
  lemma {:induction false} StageAllAppend(tx: Tx, a: seq<Job>, b: seq<Job>)
    ensures var s := StageAll(tx, a);
      StageAll(tx, a + b) == if s.outcome.Fail? then s else StageAll(s.tx, b)
    decreases |a|
  {
    if a == [] {
      assert a + b == b;
    } else {
      assert (a + b)[0] == a[0];
      assert (a + b)[1..] == a[1..] + b;
      var s1 := StageFile(tx, a[0].entry, a[0].content);
      if s1.outcome.Pass? {
        StageAllAppend(s1.tx, a[1..], b);
      }
    }
  }

  /** Staging never takes a file away, and a step that completes leaves its target a file. */
  lemma StageFileKeepsFiles(tx: Tx, entry: Path, content: string)
    ensures var s := StageFile(tx, entry, content);
      && tx.fs.files.Keys <= s.tx.fs.files.Keys
      && (s.outcome.Pass? ==> entry in s.tx.fs.files)
  {
  }

  /** One entry of `fileBackups.forEach` in `buildEnd` (lines 64-75). */
  function RestoreStep(fs: Fs, p: Path, original: Option<string>): Result<Fs, FsError> {
    match original
    case None => if Exists(fs, p) then RemoveFile(fs, p) else Success(fs)
    case Some(text) => WriteFile(fs, p, text)
  }

  /** The restore phase, in the map's insertion order; the first step that throws ends it. */
  function RestoreFiles(fs: Fs, keys: seq<Path>, backups: map<Path, Option<string>>): Applied
    requires forall k :: k in keys ==> k in backups
    decreases |keys|
  {
    if keys == [] then Applied(fs, Pass)
    else
      match RestoreStep(fs, keys[0], backups[keys[0]])
      case Failure(e) => Applied(fs, Fail(e))
      case Success(fs1) => RestoreFiles(fs1, keys[1..], backups)
  }

  /** The clean-up phase (lines 79-83): each listed directory that exists and is empty goes. */
  function RemoveEmptyDirs(fs: Fs, dirs: seq<Path>): Applied
    decreases |dirs|
  {
    if dirs == [] then Applied(fs, Pass)
    else
      var d := dirs[0];
      if !Exists(fs, d) then RemoveEmptyDirs(fs, dirs[1..])
      else
        match IsEmptyDir(fs, d)
        case Failure(e) => Applied(fs, Fail(e))
        case Success(empty) => RemoveEmptyDirs(if empty then RemoveTree(fs, d) else fs, dirs[1..])
  }

  /** The recorded directories in the order `buildEnd` visits them: longest path string first. */
  function CleanupOrder(created: seq<Path>): seq<Path> {
    SortByLengthDesc(created, PathLength)
  }

  /** `buildEnd`: restore the files, then clean up the directories. */
  function Rollback(tx: Tx): Applied
    requires forall k :: k in tx.backups.keys ==> k in tx.backups.values
  {
    var restored := RestoreFiles(tx.fs, tx.backups.keys, tx.backups.values);
    if restored.outcome.Fail? then restored
    else RemoveEmptyDirs(restored.fs, CleanupOrder(tx.created))
  }

  /**
   * What the ledger promises about the state `tx` reached from `fs0`: every recorded file holds
   * its text in `fs0` (or None), no recorded file is a directory, every file not recorded is as
   * it was in `fs0`, no directory of `fs0` is gone, and every recorded directory is new.
   */
  ghost predicate Recoverable(fs0: Fs, tx: Tx) {
    && WellFormed(fs0) && WellFormed(tx.fs)
    && tx.backups.Valid()
    && (forall k :: k in tx.backups.values ==>
          tx.backups.values[k] == Original(fs0, k) && k !in tx.fs.dirs)
    && (forall p :: p in fs0.files ==> p in tx.fs.files)
    && (forall p :: p in tx.fs.files && p !in tx.backups.values ==>
          p in fs0.files && tx.fs.files[p] == fs0.files[p])
    && fs0.dirs <= tx.fs.dirs
    && (forall d :: d in tx.created ==> d in tx.fs.dirs && d !in fs0.dirs)
  }

  /** Between two modules every recorded path is a file, as the step before wrote it. */
  ghost predicate Staging(fs0: Fs, tx: Tx) {
    Recoverable(fs0, tx) && forall k :: k in tx.backups.values ==> k in tx.fs.files
  }

  /** Midway through the step for `entry`: recorded, and every other recorded path is a file. */
  ghost predicate Prepared(fs0: Fs, tx: Tx, entry: Path) {
    && Recoverable(fs0, tx)
    && entry in tx.backups.values
    && forall k :: k in tx.backups.values && k != entry ==> k in tx.fs.files
  }

  lemma BackupPrepares(fs0: Fs, tx: Tx, entry: Path)
    requires Staging(fs0, tx)
    requires entry !in tx.backups.values && entry !in tx.fs.dirs
    ensures Prepared(fs0, tx.(backups := tx.backups.Set(entry, Original(tx.fs, entry))), entry)
  {
    assert Original(tx.fs, entry) == Original(fs0, entry);
  }

  /** Creating the missing directory keeps the state prepared, whatever new directories are recorded. */
  lemma MkdirPrepares(fs0: Fs, tx: Tx, entry: Path, created: seq<Path>)
    requires Prepared(fs0, tx, entry)
    requires !Exists(tx.fs, Dirname(entry))
    requires MkdirRecursive(tx.fs, Dirname(entry)).Success?
    requires forall d :: d in created ==>
      d in tx.created || (IsPrefix(d, Dirname(entry)) && !Exists(tx.fs, d))
    ensures Prepared(fs0, tx.(fs := MkdirRecursive(tx.fs, Dirname(entry)).value, created := created), entry)
  {
    var dir := Dirname(entry);
    var fs2 := MkdirRecursive(tx.fs, dir).value;
    MkdirKeepsWellFormed(tx.fs, dir);
    assert entry != [];
    forall k | k in tx.backups.values
      ensures k !in fs2.dirs
    {
      if k != entry {
        assert forall i :: 0 <= i <= |dir| ==> dir[..i] !in tx.fs.files;
      } else {
        assert forall i :: 0 <= i <= |dir| ==> |dir[..i]| < |entry|;
      }
    }
    forall d | d in created && d !in tx.created
      ensures d in fs2.dirs
    {
      assert d == dir[..|d|];
    }
  }

  lemma WritePrepared(fs0: Fs, tx: Tx, entry: Path, content: string)
    requires Prepared(fs0, tx, entry)
    ensures var s := Write(tx, entry, content);
      && Recoverable(fs0, s.tx)
      && (s.outcome.Pass? ==> Staging(fs0, s.tx) && entry in s.tx.fs.files && s.tx.fs.files[entry] == content)
  {
    if WriteFile(tx.fs, entry, content).Success? {
      WriteFileKeepsWellFormed(tx.fs, entry, content);
    }
  }

  /** One staging step keeps the ledger recoverable, provided its target was not staged before. */
  lemma StageFileKeepsLedger(fs0: Fs, tx: Tx, entry: Path, content: string)
    requires Staging(fs0, tx)
    requires entry !in tx.backups.values
    ensures var s := StageFile(tx, entry, content);
      && Recoverable(fs0, s.tx)
      && (s.outcome.Pass? ==> Staging(fs0, s.tx) && entry in s.tx.fs.files && s.tx.fs.files[entry] == content)
      && s.tx.backups.values.Keys <= tx.backups.values.Keys + {entry}
  {
    if !IsDirectory(tx.fs, entry) {
      var tx1 := tx.(backups := tx.backups.Set(entry, Original(tx.fs, entry)));
      BackupPrepares(fs0, tx, entry);
      var dir := Dirname(entry);
      if Exists(tx1.fs, dir) {
        WritePrepared(fs0, tx1, entry, content);
      } else if MkdirRecursive(tx1.fs, dir).Success? {
        MkdirPrepares(fs0, tx1, entry, Add(tx1.created, dir));
        WritePrepared(fs0, tx1.(fs := MkdirRecursive(tx1.fs, dir).value, created := Add(tx1.created, dir)), entry, content);
      }
    }
  }

  /** Staging modules with distinct targets keeps the ledger recoverable, however far it gets. */
  lemma {:induction false} StageAllKeepsLedger(fs0: Fs, tx: Tx, jobs: seq<Job>)
    requires Staging(fs0, tx)
    requires forall i :: 0 <= i < |jobs| ==> jobs[i].entry !in tx.backups.values
    requires forall i, j :: 0 <= i < j < |jobs| ==> jobs[i].entry != jobs[j].entry
    ensures Recoverable(fs0, StageAll(tx, jobs).tx)
    decreases |jobs|
  {
    if jobs != [] {
      StageFileKeepsLedger(fs0, tx, jobs[0].entry, jobs[0].content);
      var s := StageFile(tx, jobs[0].entry, jobs[0].content);
      if s.outcome.Pass? {
        var rest := jobs[1..];
        assert forall i :: 0 <= i < |rest| ==> rest[i].entry != jobs[0].entry && rest[i] == jobs[i + 1];
        StageAllKeepsLedger(fs0, s.tx, rest);
      }
    }
  }

  /**
   * The restore phase puts back every recorded file (or deletes it when None is recorded), leaves
   * every other file and every directory alone, and throws nowhere, provided no recorded path is
   * a directory and every recorded text has a directory to go into.
   */
  lemma {:induction false} RestoreFilesCorrect(fs: Fs, keys: seq<Path>, backups: map<Path, Option<string>>)
    requires WellFormed(fs)
    requires forall k :: k in keys ==> k in backups && k !in fs.dirs
    requires forall k :: k in keys && backups[k].Some? ==> k != [] && Dirname(k) in fs.dirs
    ensures var a := RestoreFiles(fs, keys, backups);
      && a.outcome.Pass? && WellFormed(a.fs) && a.fs.dirs == fs.dirs
      && (forall p :: p in a.fs.files <==> if p in keys then backups[p].Some? else p in fs.files)
      && (forall p :: p in a.fs.files ==>
            a.fs.files[p] == if p in keys then backups[p].value else fs.files[p])
    decreases |keys|
  {
    if keys != [] {
      var k := keys[0];
      var step := RestoreStep(fs, k, backups[k]);
      if backups[k].Some? {
        WriteFileKeepsWellFormed(fs, k, backups[k].value);
      } else if Exists(fs, k) {
        RemoveFileKeepsWellFormed(fs, k);
      }
      RestoreFilesCorrect(step.value, keys[1..], backups);
      assert forall p :: p in keys <==> p == k || p in keys[1..];
    }
  }

  /**
   * The clean-up phase throws nowhere, keeps every file, removes only listed directories, and
   * leaves no listed directory that is both present and empty: because the list is sorted longest
   * first, a directory is visited after everything below it that is listed.
   */
  lemma {:induction false} RemoveEmptyDirsCorrect(fs: Fs, ds: seq<Path>)
    requires WellFormed(fs)
    requires LongestFirst(ds, PathLength)
    requires forall d :: d in ds ==> d != [] && d !in fs.files
    ensures var a := RemoveEmptyDirs(fs, ds);
      && a.outcome.Pass? && WellFormed(a.fs) && a.fs.files == fs.files && a.fs.dirs <= fs.dirs
      && (forall p :: p in fs.dirs && p !in ds ==> p in a.fs.dirs)
      && (forall d :: d in ds && d in a.fs.dirs ==> Children(a.fs, d) != {})
    decreases |ds|
  {
    if ds != [] {
      var d := ds[0];
      var rest := ds[1..];
      var removed := Exists(fs, d) && Children(fs, d) == {};
      var fs1 := if removed then RemoveTree(fs, d) else fs;
      if removed {
        RemoveEmptyDirectory(fs, d);
      }
      RemoveEmptyDirsCorrect(fs1, rest);
      var a := RemoveEmptyDirs(fs1, rest);
      assert RemoveEmptyDirs(fs, ds) == a;
      if d in a.fs.dirs {
        assert !removed && d in fs.dirs;
        var c :| c in Children(fs, d);
        assert c == d + [c[|d|]];
        ChildIsLonger(d, c[|d|]);
        assert c !in rest;
        assert c in Children(a.fs, d);
      }
    }
  }

  /**
   * From a recoverable state `buildEnd` succeeds, every file is as it was in `fs0`, no directory
   * of `fs0` is gone, no directory is added, and every recorded directory that is left still
   * has an entry.
   */
  lemma RollbackRestores(fs0: Fs, tx: Tx)
    requires Recoverable(fs0, tx)
    ensures forall k :: k in tx.backups.keys ==> k in tx.backups.values
    ensures var a := Rollback(tx);
      && a.outcome.Pass? && WellFormed(a.fs) && a.fs.files == fs0.files
      && fs0.dirs <= a.fs.dirs <= tx.fs.dirs
      && (forall p :: p in tx.fs.dirs && p !in tx.created ==> p in a.fs.dirs)
      && (forall d :: d in tx.created && d in a.fs.dirs ==> Children(a.fs, d) != {})
  {
    RestorePhase(fs0, tx);
    var fs1 := RestoreFiles(tx.fs, tx.backups.keys, tx.backups.values).fs;
    var sorted := CleanupOrder(tx.created);
    CleanupOrderMembers(tx.created);
    forall d | d in sorted
      ensures d != [] && d !in fs1.files
    {
      assert d in tx.fs.dirs && d !in fs0.dirs;
    }
    RemoveEmptyDirsCorrect(fs1, sorted);
  }

  /** The first loop of `buildEnd` gives back the files of `fs0` and leaves the directories alone. */
  lemma RestorePhase(fs0: Fs, tx: Tx)
    requires Recoverable(fs0, tx)
    ensures forall k :: k in tx.backups.keys ==> k in tx.backups.values
    ensures var a := RestoreFiles(tx.fs, tx.backups.keys, tx.backups.values);
      a.outcome.Pass? && WellFormed(a.fs) && a.fs.files == fs0.files && a.fs.dirs == tx.fs.dirs
  {
    var keys, m := tx.backups.keys, tx.backups.values;
    forall k | k in keys && m[k].Some?
      ensures k != [] && Dirname(k) in tx.fs.dirs
    {
      assert k in fs0.files;
    }
    RestoreFilesCorrect(tx.fs, keys, m);
  }

  /** The clean-up order lists exactly the recorded directories, longest first. */
  lemma CleanupOrderMembers(created: seq<Path>)
    ensures LongestFirst(CleanupOrder(created), PathLength)
    ensures forall d :: d in CleanupOrder(created) <==> d in created
  {
    var sorted := CleanupOrder(created);
    SortByLengthDescCorrect(created, PathLength);
    forall d ensures d in sorted <==> d in created {
      assert d in sorted <==> d in multiset(sorted);
    }
  }

  /**
   * The round trip the ledger exists for: whatever `config` stages from `fs0` (all of it, or up
   * to a step that throws), `buildEnd` brings every file back to its state in `fs0` and keeps
   * every directory of `fs0`. Two modules must not share an output file.
   */
  lemma RoundTrip(fs0: Fs, jobs: seq<Job>)
    requires WellFormed(fs0)
    requires forall i, j :: 0 <= i < j < |jobs| ==> jobs[i].entry != jobs[j].entry
    ensures var staged := StageAll(Tx(fs0, EmptyMap(), []), jobs).tx;
      && (forall k :: k in staged.backups.keys ==> k in staged.backups.values)
      && var a := Rollback(staged);
      && a.outcome.Pass? && a.fs.files == fs0.files
      && fs0.dirs <= a.fs.dirs <= staged.fs.dirs
      && (forall p :: p in staged.fs.dirs && p !in staged.created ==> p in a.fs.dirs)
      && (forall d :: d in staged.created && d in a.fs.dirs ==> Children(a.fs, d) != {})
  {
    var tx0 := Tx(fs0, EmptyMap(), []);
    assert Staging(fs0, tx0);
    StageAllKeepsLedger(fs0, tx0, jobs);
    RollbackRestores(fs0, StageAll(tx0, jobs).tx);
  }

  // The corrected staging step. Two changes to the code as written: a path already in the
  // ledger keeps its first backup, and every directory `mkdirSync` is about to create is
  // recorded, not only the innermost one.

  /**
   * The walk of the loop at lines 133-137, taken before `mkdirSync` instead of after it: every
   * directory from `dir` upwards that does not exist yet, stopping at `stop` (the temp directory).
   */
  function MissingDirs(fs: Fs, dir: Path, stop: Path): (r: seq<Path>)
    ensures forall d :: d in r ==> !Exists(fs, d) && IsPrefix(d, dir)
    decreases |dir|
  {
    if dir == stop || dir == [] || Exists(fs, dir) then []
    else [dir] + MissingDirs(fs, Dirname(dir), stop)
  }

  /** `xs.forEach(x => set.add(x))`. */
  function AddAll<T(==,!new)>(s: seq<T>, xs: seq<T>): (r: seq<T>)
    ensures forall y :: y in r <==> y in s || y in xs
    decreases |xs|
  {
    if xs == [] then s else AddAll(Add(s, xs[0]), xs[1..])
  }

  /** The corrected staging step. */
  function StageFileFixed(tx: Tx, entry: Path, content: string, tempDir: Path): Staged {
    if IsDirectory(tx.fs, entry) then Staged(tx, Fail(IsADirectory(entry)))
    else
      var backups := if entry in tx.backups.keys then tx.backups
                     else tx.backups.Set(entry, Original(tx.fs, entry));
      var tx1 := tx.(backups := backups);
      var dir := Dirname(entry);
      if Exists(tx1.fs, dir) then Write(tx1, entry, content)
      else
        var missing := MissingDirs(tx1.fs, dir, tempDir);
        match MkdirRecursive(tx1.fs, dir)
        case Failure(e) => Staged(tx1, Fail(e))
        case Success(fs2) => Write(tx1.(fs := fs2, created := AddAll(tx1.created, missing)), entry, content)
  }

  function StageAllFixed(tx: Tx, jobs: seq<Job>, tempDir: Path): Staged
    decreases |jobs|
  {
    if jobs == [] then Staged(tx, Pass)
    else
      var s := StageFileFixed(tx, jobs[0].entry, jobs[0].content, tempDir);
      if s.outcome.Fail? then s else StageAllFixed(s.tx, jobs[1..], tempDir)
  }

  /** Every directory that was not there in `fs0` is recorded. */
  ghost predicate Complete(fs0: Fs, tx: Tx) {
    forall d :: d in tx.fs.dirs ==> d in fs0.dirs || d in tx.created
  }

  /** The walk finds every missing ancestor, given that the directory it stops at exists. */
  lemma {:induction false} MissingDirsComplete(fs: Fs, dir: Path, stop: Path)
    requires WellFormed(fs) && stop in fs.dirs
    ensures forall i :: 0 <= i <= |dir| && !Exists(fs, dir[..i]) ==> dir[..i] in MissingDirs(fs, dir, stop)
    decreases |dir|
  {
    if dir == stop || dir == [] || Exists(fs, dir) {
      forall i | 0 <= i <= |dir|
        ensures Exists(fs, dir[..i])
      {
        if dir == [] {
          assert dir[..i] == [];
        } else if i < |dir| || dir in fs.dirs {
          AncestorIsDirectory(fs, dir, i);
        } else {
          assert dir[..i] == dir;
        }
      }
    } else {
      var parent := Dirname(dir);
      MissingDirsComplete(fs, parent, stop);
      forall i | 0 <= i < |dir|
        ensures dir[..i] == parent[..i]
      {
      }
      assert dir[..|dir|] == dir;
    }
  }

  lemma BackupFixedPrepares(fs0: Fs, tx: Tx, entry: Path)
    requires Staging(fs0, tx)
    requires entry !in tx.fs.dirs
    ensures var backups := if entry in tx.backups.keys then tx.backups
                           else tx.backups.Set(entry, Original(tx.fs, entry));
      Prepared(fs0, tx.(backups := backups), entry)
  {
    if entry !in tx.backups.keys {
      BackupPrepares(fs0, tx, entry);
    }
  }

  /** One corrected step keeps the ledger recoverable and complete, even for a repeated target. */
  lemma StageFileFixedKeepsLedger(fs0: Fs, tx: Tx, entry: Path, content: string, tempDir: Path)
    requires Staging(fs0, tx) && Complete(fs0, tx)
    requires tempDir in fs0.dirs
    ensures var s := StageFileFixed(tx, entry, content, tempDir);
      && Recoverable(fs0, s.tx) && Complete(fs0, s.tx)
      && (s.outcome.Pass? ==> Staging(fs0, s.tx) && entry in s.tx.fs.files && s.tx.fs.files[entry] == content)
  {
    if !IsDirectory(tx.fs, entry) {
      var backups := if entry in tx.backups.keys then tx.backups
                     else tx.backups.Set(entry, Original(tx.fs, entry));
      var tx1 := tx.(backups := backups);
      BackupFixedPrepares(fs0, tx, entry);
      var dir := Dirname(entry);
      if Exists(tx1.fs, dir) {
        WritePrepared(fs0, tx1, entry, content);
        WriteKeepsComplete(fs0, tx1, entry, content);
      } else if MkdirRecursive(tx1.fs, dir).Success? {
        var created := AddAll(tx1.created, MissingDirs(tx1.fs, dir, tempDir));
        var tx2 := tx1.(fs := MkdirRecursive(tx1.fs, dir).value, created := created);
        MkdirFixedPrepares(fs0, tx1, entry, tempDir);
        WritePrepared(fs0, tx2, entry, content);
        WriteKeepsComplete(fs0, tx2, entry, content);
      }
    }
  }

  /** Writing a file creates no directory. */
  lemma WriteKeepsComplete(fs0: Fs, tx: Tx, entry: Path, content: string)
    requires Complete(fs0, tx)
    ensures Complete(fs0, Write(tx, entry, content).tx)
  {
  }

  /** The corrected `mkdirSync` step records every directory it creates and keeps the ledger prepared. */
  lemma MkdirFixedPrepares(fs0: Fs, tx: Tx, entry: Path, tempDir: Path)
    requires Prepared(fs0, tx, entry) && Complete(fs0, tx)
    requires WellFormed(tx.fs) && tempDir in tx.fs.dirs
    requires !Exists(tx.fs, Dirname(entry)) && MkdirRecursive(tx.fs, Dirname(entry)).Success?
    ensures var created := AddAll(tx.created, MissingDirs(tx.fs, Dirname(entry), tempDir));
      var tx2 := tx.(fs := MkdirRecursive(tx.fs, Dirname(entry)).value, created := created);
      Prepared(fs0, tx2, entry) && Complete(fs0, tx2)
  {
    var dir := Dirname(entry);
    var created := AddAll(tx.created, MissingDirs(tx.fs, dir, tempDir));
    MkdirPrepares(fs0, tx, entry, created);
    var fs2 := MkdirRecursive(tx.fs, dir).value;
    MissingDirsComplete(tx.fs, dir, tempDir);
    forall d | d in fs2.dirs
      ensures d in fs0.dirs || d in created
    {
      if d !in tx.fs.dirs {
        var i :| 0 <= i <= |dir| && d == dir[..i];
        assert forall j :: 0 <= j <= |dir| ==> dir[..j] !in tx.fs.files;
      }
    }
  }

  lemma {:induction false} StageAllFixedKeepsLedger(fs0: Fs, tx: Tx, jobs: seq<Job>, tempDir: Path)
    requires Staging(fs0, tx) && Complete(fs0, tx)
    requires tempDir in fs0.dirs
    ensures var s := StageAllFixed(tx, jobs, tempDir);
      Recoverable(fs0, s.tx) && Complete(fs0, s.tx)
    decreases |jobs|
  {
    if jobs != [] {
      StageFileFixedKeepsLedger(fs0, tx, jobs[0].entry, jobs[0].content, tempDir);
      var s := StageFileFixed(tx, jobs[0].entry, jobs[0].content, tempDir);
      if s.outcome.Pass? {
        StageAllFixedKeepsLedger(fs0, s.tx, jobs[1..], tempDir);
      }
    }
  }

  /** A longest path of a non-empty finite set. */
  lemma LongestIn(s: set<Path>) returns (m: Path)
    requires s != {}
    ensures m in s && forall x :: x in s ==> |x| <= |m|
    decreases |s|
  {
    var x :| x in s;
    if s == {x} {
      m := x;
    } else {
      var m' := LongestIn(s - {x});
      m := if |x| > |m'| then x else m';
    }
  }

  /** The directory holding an entry of `fs0` is a directory of `fs0`. */
  lemma ParentOfOld(fs0: Fs, m: Path, c: Path)
    requires WellFormed(fs0)
    requires |c| == |m| + 1 && c[..|m|] == m
    ensures c in fs0.files || c in fs0.dirs ==> m in fs0.dirs
  {
    assert Dirname(c) == m;
  }

  /**
   * When every new directory is recorded and every recorded directory that is left has an entry,
   * no new directory is left: the longest one would need a new entry below it.
   */
  lemma NoNewDirsLeft(fs0: Fs, fs: Fs, created: seq<Path>)
    requires WellFormed(fs0)
    requires fs.files == fs0.files && fs0.dirs <= fs.dirs
    requires forall d :: d in fs.dirs ==> d in fs0.dirs || d in created
    requires forall d :: d in created && d in fs.dirs ==> Children(fs, d) != {}
    ensures fs.dirs == fs0.dirs
  {
    var added := fs.dirs - fs0.dirs;
    if added != {} {
      var m := LongestIn(added);
      var c :| c in Children(fs, m);
      ParentOfOld(fs0, m, c);
      assert false;
    }
    forall d | d in fs.dirs
      ensures d in fs0.dirs
    {
      assert d !in added;
    }
  }

  /**
   * The round trip of the corrected ledger: whatever `config` stages (all of it, or up to a step
   * that throws, repeated targets included), `buildEnd` gives back exactly the filesystem it
   * started from.
   */
  lemma RoundTripFixed(fs0: Fs, jobs: seq<Job>, tempDir: Path)
    requires WellFormed(fs0) && tempDir in fs0.dirs
    ensures var staged := StageAllFixed(Tx(fs0, EmptyMap(), []), jobs, tempDir).tx;
      && (forall k :: k in staged.backups.keys ==> k in staged.backups.values)
      && Rollback(staged) == Applied(fs0, Pass)
  {
    var tx0 := Tx(fs0, EmptyMap(), []);
    assert Staging(fs0, tx0) && Complete(fs0, tx0);
    StageAllFixedKeepsLedger(fs0, tx0, jobs, tempDir);
    var staged := StageAllFixed(tx0, jobs, tempDir).tx;
    RollbackRestores(fs0, staged);
    var a := Rollback(staged);
    NoNewDirsLeft(fs0, a.fs, staged.created);
  }

  /**
   * The directory leak of the code as written: staging `/a/b/x.html` into an empty root creates
   * `/a` and `/a/b` but records only `/a/b`, so `buildEnd` leaves the empty directory `/a`
   * behind. The corrected step records both and gives the root back as it was.
   */
  lemma AncestorDirLeaks()
    ensures var fs0 := Fs(map[], {[]});
      var jobs := [Job(["a", "b", "x.html"], "<html></html>")];
      var staged := StageAll(Tx(fs0, EmptyMap(), []), jobs).tx;
      && (forall k :: k in staged.backups.keys ==> k in staged.backups.values)
      && Rollback(staged).outcome.Pass?
      && ["a"] in Rollback(staged).fs.dirs && ["a"] !in fs0.dirs
      && Rollback(StageAllFixed(Tx(fs0, EmptyMap(), []), jobs, []).tx) == Applied(fs0, Pass)
  {
    var fs0 := Fs(map[], {[]});
    var jobs := [Job(["a", "b", "x.html"], "<html></html>")];
    var tx0 := Tx(fs0, EmptyMap(), []);
    var dir: Path := ["a", "b"];
    assert Dirname(jobs[0].entry) == dir;
    assert dir[..1] == ["a"];
    assert ["a"] in Ancestors(dir);
    var s := StageFile(tx0, jobs[0].entry, jobs[0].content);
    assert s.tx.created == [dir];
    assert ["a"] in s.tx.fs.dirs;
    assert dir == dir[..2] && dir in s.tx.fs.dirs;
    assert s.outcome.Pass?;
    assert jobs[1..] == [];
    assert StageAll(tx0, jobs) == StageAll(s.tx, []);
    RoundTrip(fs0, jobs);
    RoundTripFixed(fs0, jobs, []);
  }

  /**
   * The lost backup of the code as written: when two modules map to the same file (the DSL root
   * and a DSL directory named `index`, say), the second backup records the first module's
   * generated page, and `buildEnd` writes that page back instead of deleting the file. The
   * corrected step keeps the first backup and deletes it.
   */
  lemma RepeatedTargetLeaks()
    ensures var fs0 := Fs(map[], {[]});
      var jobs := [Job(["index.html"], "one"), Job(["index.html"], "two")];
      var staged := StageAll(Tx(fs0, EmptyMap(), []), jobs).tx;
      && (forall k :: k in staged.backups.keys ==> k in staged.backups.values)
      && Rollback(staged) == Applied(Fs(map[["index.html"] := "one"], {[]}), Pass)
      && Rollback(StageAllFixed(Tx(fs0, EmptyMap(), []), jobs, []).tx) == Applied(fs0, Pass)
  {
    var fs0 := Fs(map[], {[]});
    var jobs := [Job(["index.html"], "one"), Job(["index.html"], "two")];
    var tx0 := Tx(fs0, EmptyMap(), []);
    var p: Path := ["index.html"];
    assert Dirname(p) == [];
    var s1 := StageFile(tx0, p, "one");
    assert s1.tx == Tx(Fs(map[p := "one"], {[]}), OrderedMap([p], map[p := None]), []);
    var s2 := StageFile(s1.tx, p, "two");
    assert s2.tx == Tx(Fs(map[p := "two"], {[]}), OrderedMap([p], map[p := Some("one")]), []);
    assert StageAll(tx0, jobs) == StageAll(s2.tx, []);
    var r := RestoreFiles(s2.tx.fs, [p], map[p := Some("one")]);
    assert r == Applied(Fs(map[p := "one"], {[]}), Pass);
    assert CleanupOrder([]) == [];
    RoundTripFixed(fs0, jobs, []);
  }
}
