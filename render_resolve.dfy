/**
 * How the dev server finds a DSL module on disk (packages/render/src/plugins/render-plugin.ts:75-150):
 * the index-file lookup of `resolveModuleEntry`, the cumulative directory chain of a route's
 * segments, `checkDslExists` and the override list `loadDslWithVite` hands to `mergeDsl`.
 */
module DslResolver {
  import opened Wrappers
  import opened Strings
  import opened Paths
  import opened FileSystem
  import opened ZelpisTypes

  /** The index files tried, in order (line 77). */
  const IndexFiles: seq<string> := ["index.ts", "index.js", "index.json"]

  /** The first of `names` that exists inside `dir`, or `dir` itself when none does. */
  function FirstExisting(fs: Fs, dir: Path, names: seq<string>): Path
    decreases |names|
  {
    if names == [] then dir
    else if Exists(fs, dir + [names[0]]) then dir + [names[0]]
    else FirstExisting(fs, dir, names[1..])
  }

  /** `resolveModuleEntry(p)` (lines 75-85). */
  function ModuleEntry(fs: Fs, p: Path): Path {
    if IsDirectory(fs, p) then FirstExisting(fs, p, IndexFiles) else p
  }

  lemma {:induction false} FirstExistingIsFirst(fs: Fs, dir: Path, names: seq<string>)
    ensures var r := FirstExisting(fs, dir, names);
      && (r == dir <==> forall k :: 0 <= k < |names| ==> !Exists(fs, dir + [names[k]]))
      && (r != dir ==> exists k :: 0 <= k < |names| && r == dir + [names[k]] && Exists(fs, r) &&
                         forall j :: 0 <= j < k ==> !Exists(fs, dir + [names[j]]))
    decreases |names|
  {
    if names != [] {
      assert |dir + [names[0]]| != |dir|;
      FirstExistingIsFirst(fs, dir, names[1..]);
      var r := FirstExisting(fs, dir, names);
      if !Exists(fs, dir + [names[0]]) && r != dir {
        var k :| 0 <= k < |names[1..]| && r == dir + [names[1..][k]] && Exists(fs, r) &&
                 forall j :: 0 <= j < k ==> !Exists(fs, dir + [names[1..][j]]);
        assert r == dir + [names[k + 1]];
        forall j | 0 <= j < k + 1
          ensures !Exists(fs, dir + [names[j]])
        {
          if j > 0 {
            assert names[j] == names[1..][j - 1];
          }
        }
      }
    }
  }

  /**
   * For an existing directory `resolveModuleEntry` gives the first of `index.ts`, `index.js`,
   * `index.json` inside it that exists; for anything else, and for a directory with none of
   * them, it gives its argument back.
   */
  lemma ModuleEntryFirstIndex(fs: Fs, p: Path)
    ensures var r := ModuleEntry(fs, p);
      && (r == p <==> !IsDirectory(fs, p) || forall k :: 0 <= k < |IndexFiles| ==> !Exists(fs, p + [IndexFiles[k]]))
      && (r != p ==>
            IsDirectory(fs, p) &&
            exists k :: 0 <= k < |IndexFiles| && r == p + [IndexFiles[k]] && Exists(fs, r) &&
              forall j :: 0 <= j < k ==> !Exists(fs, p + [IndexFiles[j]]))
  {
    FirstExistingIsFirst(fs, p, IndexFiles);
  }

  /** What `resolveModuleEntry` returns exists exactly when its argument does: the fallback of line 84. */
  lemma ModuleEntryExists(fs: Fs, p: Path)
    ensures Exists(fs, ModuleEntry(fs, p)) <==> Exists(fs, p)
  {
    FirstExistingIsFirst(fs, p, IndexFiles);
  }

  /** `resolveModuleEntry` with its `for ... of` loop and early return (lines 75-85). */
  method ResolveModuleEntry(fs: Fs, p: Path) returns (r: Path)
    ensures r == ModuleEntry(fs, p)
  {
    if Exists(fs, p) && IsDirectory(fs, p) {
      var tryFiles := IndexFiles;
      var i := 0;
      while i < |tryFiles|
        invariant 0 <= i <= |tryFiles|
        invariant FirstExisting(fs, p, tryFiles[i..]) == ModuleEntry(fs, p)
      {
        var candidate := p + [tryFiles[i]];
        if Exists(fs, candidate) {
          return candidate;
        }
        assert tryFiles[i..][1..] == tryFiles[i + 1..];
        i := i + 1;
      }
    }
    return p;
  }

  /** The `reduce` of lines 98-106 and 129-137: one directory per segment, each resolved from the last. */
  function Prefixes(start: Path, names: seq<string>): (r: seq<Path>)
    ensures |r| == |names|
    decreases |names|
  {
    if names == [] then []
    else
      var next := ResolveFrom(start, [names[0]]);
      [next] + Prefixes(next, names[1..])
  }

  /** Prefix `i` is the start directory resolved with the first `i + 1` segments. */
  lemma {:induction false} PrefixIsResolvedChain(start: Path, names: seq<string>, i: nat)
    requires i < |names|
    ensures Prefixes(start, names)[i] == ResolveFrom(start, names[..i + 1])
    decreases |names|
  {
    var next := ResolveFrom(start, [names[0]]);
    assert ResolveFrom(start, [names[0]]) == ResolveFrom(Walk(if IsAbsolute(names[0]) then [] else start, Split(names[0], '/')), []);
    if i > 0 {
      PrefixIsResolvedChain(next, names[1..], i - 1);
      assert names[..i + 1][1..] == names[1..][..i];
    }
  }

  /** A plain segment is appended as it is. */
  lemma ResolvePlainSegment(acc: Path, seg: string)
    requires Plain(seg)
    ensures ResolveFrom(acc, [seg]) == acc + [seg]
  {
    SplitNoSeparator(seg, '/');
    assert !IsAbsolute(seg);
    assert ResolveFrom(acc, [seg]) == ResolveFrom(Walk(acc, [seg]), []);
  }

  /** With plain segments, prefix `i` is the start directory followed by the first `i + 1` of them. */
  lemma {:induction false} PrefixesOfPlainNames(start: Path, names: seq<string>)
    requires AllPlain(names)
    ensures forall i :: 0 <= i < |names| ==> Prefixes(start, names)[i] == start + names[..i + 1]
    decreases |names|
  {
    if names != [] {
      ResolvePlainSegment(start, names[0]);
      var next := start + [names[0]];
      PrefixesOfPlainNames(next, names[1..]);
      forall i | 0 <= i < |names|
        ensures Prefixes(start, names)[i] == start + names[..i + 1]
      {
        if i > 0 {
          assert next + names[1..][..i] == start + names[..i + 1];
        }
      }
    }
  }

  /** The accumulator `{ prefix, list }` of the `reduce`, mutated one segment at a time. */
  method CumulativePrefixes(start: Path, names: seq<string>) returns (list: seq<Path>)
    ensures list == Prefixes(start, names)
  {
    var prefix := start;
    list := [];
    var i := 0;
    while i < |names|
      invariant 0 <= i <= |names|
      invariant list + Prefixes(prefix, names[i..]) == Prefixes(start, names)
    {
      var dirname := ResolveFrom(prefix, [names[i]]);
      assert names[i..][1..] == names[i + 1..];
      assert Prefixes(prefix, names[i..]) == [dirname] + Prefixes(dirname, names[i + 1..]);
      list := list + [dirname];
      prefix := dirname;
      i := i + 1;
    }
  }

  /** `path.resolve(modelDir, p)` for a prefix `p`, which the code passes as its absolute string. */
  function Reresolve(cwd: Path, modelDir: string, p: Path): Path {
    Resolve(cwd, [modelDir, PathString(p)])
  }

  lemma ReresolvePrefix(cwd: Path, modelDir: string, p: Path)
    requires AllPlain(p)
    ensures Reresolve(cwd, modelDir, p) == p
  {
    assert [modelDir, PathString(p)][1..] == [PathString(p)];
    var start := if IsAbsolute(modelDir) then [] else cwd;
    PathStringResolves(Walk(start, Split(modelDir, '/')), p);
  }

  /** `checkDslExists(modelDir, dslName)` (lines 87-119) as written. */
  function DslExists(fs: Fs, cwd: Path, modelDir: Option<string>, names: seq<string>): bool {
    if !Truthy(modelDir) then false
    else
      var start := Resolve(cwd, [modelDir.value]);
      if names == [] then Exists(fs, ModuleEntry(fs, start))
      else
        var ps := Prefixes(start, names);
        if exists i :: 0 <= i < |ps| && !Exists(fs, ps[i]) then false
        else Exists(fs, ModuleEntry(fs, Reresolve(cwd, modelDir.value, ps[|ps| - 1])))
  }

  /** The model directory and its route directories resolved from the working directory. */
  function Start(cwd: Path, modelDir: string): Path {
    Resolve(cwd, [modelDir])
  }

  /**
   * Because `resolveModuleEntry` falls back to its argument, `checkDslExists` answers whether the
   * model directory (no segments) or every directory of the chain exists, and nothing about index
   * files.
   */
  lemma DslExistsIsChainExists(fs: Fs, cwd: Path, modelDir: Option<string>, names: seq<string>)
    requires AllPlain(cwd)
    ensures DslExists(fs, cwd, modelDir, names) <==>
      && Truthy(modelDir)
      && (names == [] ==> Exists(fs, Start(cwd, modelDir.value)))
      && forall i :: 0 <= i < |names| ==> Exists(fs, Prefixes(Start(cwd, modelDir.value), names)[i])
  {
    if Truthy(modelDir) {
      var start := Start(cwd, modelDir.value);
      if names == [] {
        ModuleEntryExists(fs, start);
      } else {
        var ps := Prefixes(start, names);
        var last := ps[|ps| - 1];
        ResolveKeepsPlain(cwd, [modelDir.value]);
        PrefixIsResolvedChain(start, names, |names| - 1);
        ResolveKeepsPlain(start, names[..|names|]);
        ReresolvePrefix(cwd, modelDir.value, last);
        ModuleEntryExists(fs, last);
      }
    }
  }

  /** The directory whose module the route loads last: the deepest prefix, or the model directory. */
  function Target(cwd: Path, modelDir: string, names: seq<string>): Path {
    if names == [] then Start(cwd, modelDir) else Prefixes(Start(cwd, modelDir), names)[|names| - 1]
  }

  /** `checkDslExists` as its comments at lines 92 and 115 describe it: the target has an index file. */
  function DslExistsFixed(fs: Fs, cwd: Path, modelDir: Option<string>, names: seq<string>): bool {
    && Truthy(modelDir)
    && (forall i :: 0 <= i < |names| ==> Exists(fs, Prefixes(Start(cwd, modelDir.value), names)[i]))
    && var target := Target(cwd, modelDir.value, names);
       IsDirectory(fs, target) && ModuleEntry(fs, target) != target
  }

  /**
   * The corrected check passes only routes the as-written check passes, and for them the module
   * loaded last is an existing index file inside the target directory.
   */
  lemma DslExistsFixedLoadsIndex(fs: Fs, cwd: Path, modelDir: Option<string>, names: seq<string>)
    requires AllPlain(cwd)
    requires DslExistsFixed(fs, cwd, modelDir, names)
    ensures DslExists(fs, cwd, modelDir, names)
    ensures var target := Target(cwd, modelDir.value, names);
      exists k :: 0 <= k < |IndexFiles| && ModuleEntry(fs, target) == target + [IndexFiles[k]] &&
        Exists(fs, target + [IndexFiles[k]])
  {
    var target := Target(cwd, modelDir.value, names);
    DslExistsIsChainExists(fs, cwd, modelDir, names);
    ModuleEntryFirstIndex(fs, target);
  }

  /**
   * A route directory with no index file passes the as-written check (`/m/a` for the route `a`
   * under the model directory `/m`), though the corrected one rejects it.
   */
  lemma DirectoryWithoutIndexPasses()
    ensures var fs := Fs(map[], {[], ["m"], ["m", "a"]});
      DslExists(fs, [], Some("/m"), ["a"]) && !DslExistsFixed(fs, [], Some("/m"), ["a"])
  {
    var fs := Fs(map[], {[], ["m"], ["m", "a"]});
    ChainOfRouteA();
    DslExistsIsChainExists(fs, [], Some("/m"), ["a"]);
    assert Exists(fs, Prefixes(Start([], "/m"), ["a"])[0]);
    NoIndexUnderRouteA();
  }

  /** With no files at all, the module of `/m/a` is the directory itself. */
  lemma NoIndexUnderRouteA()
    ensures ModuleEntry(Fs(map[], {[], ["m"], ["m", "a"]}), ["m", "a"]) == ["m", "a"]
  {
    var fs := Fs(map[], {[], ["m"], ["m", "a"]});
    ModuleEntryFirstIndex(fs, ["m", "a"]);
    assert forall k :: 0 <= k < |IndexFiles| ==> !Exists(fs, ["m", "a"] + [IndexFiles[k]]);
  }

  /** The chain of the route `a` under the model directory `/m` is the directory `/m/a`. */
  lemma ChainOfRouteA()
    ensures Start([], "/m") == ["m"]
    ensures Prefixes(["m"], ["a"]) == [["m", "a"]]
    ensures Target([], "/m", ["a"]) == ["m", "a"]
  {
    assert PathString(["m"]) == "/m";
    PathStringResolves([], ["m"]);
    ResolvePlainSegment(["m"], "a");
    assert ["m"] + ["a"] == ["m", "a"];
    assert ["a"][1..] == [];
    assert Prefixes(["m"], ["a"]) == [ResolveFrom(["m"], ["a"])] + Prefixes(ResolveFrom(["m"], ["a"]), []);
  }

  /** `checkDslExists` with its loop over the prefixes and early returns (lines 87-119). */
  method CheckDslExists(fs: Fs, cwd: Path, modelDir: Option<string>, names: seq<string>) returns (b: bool)
    ensures b == DslExists(fs, cwd, modelDir, names)
  {
    if !Truthy(modelDir) {
      return false;
    }
    if names == [] {
      var baseEntry := ResolveModuleEntry(fs, Resolve(cwd, [modelDir.value]));
      return Exists(fs, baseEntry);
    }
    var segmentsAccum := CumulativePrefixes(Resolve(cwd, [modelDir.value]), names);
    var i := 0;
    while i < |segmentsAccum|
      invariant 0 <= i <= |segmentsAccum|
      invariant forall k :: 0 <= k < i ==> Exists(fs, segmentsAccum[k])
    {
      if !Exists(fs, segmentsAccum[i]) {
        return false;
      }
      i := i + 1;
    }
    var lastPath := segmentsAccum[|segmentsAccum| - 1];
    var lastEntry := ResolveModuleEntry(fs, Resolve(cwd, [modelDir.value, PathString(lastPath)]));
    b := Exists(fs, lastEntry);
  }

  /** What `ssrLoadModule` produces: it throws, or the module with its optional default export. */
  datatype Module = Threw | Module(default: Option<Json>)

  /** `m.default ?? {}` (line 145): a missing or `null` default export gives `{}`. */
  function DefaultOrEmpty(d: Option<Json>): (r: Json)
    ensures r != JNull
    ensures d.Some? && d.value != JNull ==> r == d.value
    ensures d.None? || d.value == JNull ==> r == EmptyObject
  {
    if d.Some? && d.value != JNull then d.value else EmptyObject
  }

  /** One element of `nameDslList` (lines 140-146), or None when its load throws. */
  function Override(fs: Fs, cwd: Path, load: Path -> Module, modelDir: string, p: Path): Option<Json> {
    if !Exists(fs, p) then Some(EmptyObject)
    else
      match load(ModuleEntry(fs, Reresolve(cwd, modelDir, p)))
      case Threw => None
      case Module(d) => Some(DefaultOrEmpty(d))
  }

  /** `Promise.all` over the prefixes (lines 139-147): every override, or None when one load throws. */
  function Overrides(fs: Fs, cwd: Path, load: Path -> Module, modelDir: string, ps: seq<Path>): (r: Option<seq<Json>>)
    ensures r.None? <==> exists i :: 0 <= i < |ps| && Override(fs, cwd, load, modelDir, ps[i]).None?
    ensures r.Some? ==> |r.value| == |ps| &&
                        forall i :: 0 <= i < |ps| ==> Override(fs, cwd, load, modelDir, ps[i]) == Some(r.value[i])
    decreases |ps|
  {
    if ps == [] then Some([])
    else
      match Override(fs, cwd, load, modelDir, ps[0])
      case None => None
      case Some(o) =>
        match Overrides(fs, cwd, load, modelDir, ps[1..])
        case None => None
        case Some(rest) => Some([o] + rest)
  }

  /** What `loadDslWithVite` settles to: rejected, or the merged payload (possibly `undefined`). */
  datatype Loaded = LoadThrew | Loaded(dsl: Option<Json>)

  /** `loadDslWithVite(modelDir, dslName)` (lines 121-150); `mergeDsl` is the uninterpreted `merge`. */
  function LoadDsl(fs: Fs, cwd: Path, load: Path -> Module, merge: (Option<Json>, seq<Json>) -> Json,
                   modelDir: string, names: seq<string>): Loaded {
    match load(ModuleEntry(fs, Resolve(cwd, [modelDir])))
    case Threw => LoadThrew
    case Module(baseDsl) =>
      if names == [] then Loaded(baseDsl)
      else
        match Overrides(fs, cwd, load, modelDir, Prefixes(Resolve(cwd, [modelDir]), names))
        case None => LoadThrew
        case Some(list) => Loaded(Some(merge(baseDsl, list)))
  }

  /**
   * The override of a route directory: `{}` when it is missing, else the default export of its
   * module, or `{}` when that export is missing or `null`.
   */
  function DirOverride(fs: Fs, load: Path -> Module, p: Path): Option<Json> {
    if !Exists(fs, p) then Some(EmptyObject)
    else
      match load(ModuleEntry(fs, p))
      case Threw => None
      case Module(d) => Some(DefaultOrEmpty(d))
  }

  /** Every prefix of the chain is a plain path. */
  lemma PrefixIsPlain(cwd: Path, modelDir: string, names: seq<string>, i: nat)
    requires AllPlain(cwd)
    requires i < |names|
    ensures AllPlain(Prefixes(Start(cwd, modelDir), names)[i])
  {
    var start := Start(cwd, modelDir);
    ResolveKeepsPlain(cwd, [modelDir]);
    PrefixIsResolvedChain(start, names, i);
    ResolveKeepsPlain(start, names[..i + 1]);
  }

  /** Re-resolving a prefix against the model directory (line 143) lands on the prefix itself. */
  lemma OverrideOfPrefix(fs: Fs, cwd: Path, load: Path -> Module, modelDir: string, names: seq<string>, i: nat)
    requires AllPlain(cwd)
    requires i < |names|
    ensures var p := Prefixes(Start(cwd, modelDir), names)[i];
      Override(fs, cwd, load, modelDir, p) == DirOverride(fs, load, p)
  {
    var p := Prefixes(Start(cwd, modelDir), names)[i];
    PrefixIsPlain(cwd, modelDir, names, i);
    ReresolvePrefix(cwd, modelDir, p);
  }

  /**
   * With segments, the payload is `mergeDsl` of the base module's default export and one
   * override per segment in root-to-leaf order: `{}` for a missing directory, else the default
   * export of the module `resolveModuleEntry` finds in that directory, or `{}` when that export
   * is missing or `null`. The base export is passed as it is, `null` or missing included.
   */
  lemma LoadDslMergesChain(fs: Fs, cwd: Path, load: Path -> Module, merge: (Option<Json>, seq<Json>) -> Json,
                           modelDir: string, names: seq<string>) returns (list: seq<Json>)
    requires AllPlain(cwd)
    requires names != []
    requires LoadDsl(fs, cwd, load, merge, modelDir, names).Loaded?
    ensures load(ModuleEntry(fs, Start(cwd, modelDir))).Module?
    ensures LoadDsl(fs, cwd, load, merge, modelDir, names).dsl ==
      Some(merge(load(ModuleEntry(fs, Start(cwd, modelDir))).default, list))
    ensures |list| == |names|
    ensures forall i :: 0 <= i < |names| ==>
      DirOverride(fs, load, Prefixes(Start(cwd, modelDir), names)[i]) == Some(list[i])
  {
    var ps := Prefixes(Start(cwd, modelDir), names);
    list := Overrides(fs, cwd, load, modelDir, ps).value;
    forall i | 0 <= i < |names|
      ensures DirOverride(fs, load, ps[i]) == Some(list[i])
    {
      OverrideOfPrefix(fs, cwd, load, modelDir, names, i);
    }
  }

  /**
   * Behind the gate, no override is a placeholder for a missing directory: every one comes from
   * a module that was loaded.
   */
  lemma GatedOverridesAreLoaded(fs: Fs, cwd: Path, load: Path -> Module, modelDir: string, names: seq<string>)
    requires AllPlain(cwd)
    requires DslExists(fs, cwd, Some(modelDir), names)
    ensures forall i :: 0 <= i < |names| ==>
      Override(fs, cwd, load, modelDir, Prefixes(Start(cwd, modelDir), names)[i]) ==
        match load(ModuleEntry(fs, Reresolve(cwd, modelDir, Prefixes(Start(cwd, modelDir), names)[i])))
        case Threw => None
        case Module(d) => Some(DefaultOrEmpty(d))
  {
    DslExistsIsChainExists(fs, cwd, Some(modelDir), names);
  }
}
