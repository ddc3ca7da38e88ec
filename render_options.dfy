/**
 * Configuration of the render plugin (packages/render/src/plugins/render-plugin.ts:22-58):
 * `parseOption` makes every entry's paths absolute, and the `config` hook merges the plugin
 * option under `config.zelpis`, writes the parsed result back and copies it into the shared
 * `parsedConfig` object.
 */
module RenderOptions {
  import opened Wrappers
  import opened Strings
  import opened Paths
  import opened ZelpisTypes

  /** `option.baseDir || process.cwd()`, as a string. */
  function BaseDir(baseDir: Prop<string>, cwd: Path): string {
    if baseDir.Has? && baseDir.value != "" then baseDir.value else PathString(cwd)
  }

  /** The `forEach` body (lines 24-28): both paths resolved against the base directory. */
  function ParseEntry(entry: Entry, base: string, cwd: Path): Entry {
    var entryPath := Resolve(cwd, [base, entry.entryPath]);
    var dslPath :=
      if Truthy(entry.dslPath) then Resolve(cwd, [base, entry.dslPath.value])
      else Resolve(cwd, [PathString(Dirname(entryPath)), "model"]);
    entry.(entryPath := PathString(entryPath), dslPath := Some(PathString(dslPath)))
  }

  /** `parseOption` (lines 22-32) on the entries, one after the other. */
  function ParseEntries(entrys: seq<Entry>, base: string, cwd: Path): (r: seq<Entry>)
    ensures |r| == |entrys|
    ensures forall i :: 0 <= i < |entrys| ==> r[i] == ParseEntry(entrys[i], base, cwd)
    decreases |entrys|
  {
    if entrys == [] then [] else [ParseEntry(entrys[0], base, cwd)] + ParseEntries(entrys[1..], base, cwd)
  }

  /** `parseOption(option)`: the configuration with its entries parsed against its own base directory. */
  function ParseConfig(option: ZElpisConfig, cwd: Path): ZElpisConfig {
    option.(entrys := ParseEntries(option.entrys, BaseDir(option.baseDir, cwd), cwd))
  }

  /** Resolving two arguments is resolving the second from where the first leads. */
  lemma ResolveTwo(acc: Path, a: string, b: string)
    ensures ResolveFrom(acc, [a, b]) == ResolveFrom(ResolveFrom(acc, [a]), [b])
  {
    var start := if IsAbsolute(a) then [] else acc;
    assert [a, b][1..] == [b];
    assert ResolveFrom(acc, [a]) == ResolveFrom(Walk(start, Split(a, '/')), []);
  }

  /** The string form of a resolved path is truthy, so a parsed `dslPath` is kept on a second pass. */
  lemma PathStringTruthy(p: Path)
    ensures Truthy(Some(PathString(p)))
  {
  }

  /**
   * What `parseOption` makes of an entry: the entry file resolved against the base directory,
   * the DSL directory resolved against it too when it is given and otherwise the `model`
   * directory beside the entry file; the base path and HTML settings kept.
   */
  lemma ParseEntryPaths(entry: Entry, base: string, cwd: Path)
    requires AllPlain(cwd)
    ensures var r := ParseEntry(entry, base, cwd);
      var file := ResolveFrom(ResolveFrom(cwd, [base]), [entry.entryPath]);
      && r.basePath == entry.basePath && r.html == entry.html
      && r.entryPath == PathString(file)
      && r.dslPath == Some(PathString(
           if Truthy(entry.dslPath) then ResolveFrom(ResolveFrom(cwd, [base]), [entry.dslPath.value])
           else Dirname(file) + ["model"]))
  {
    var file := Resolve(cwd, [base, entry.entryPath]);
    ResolveTwo(cwd, base, entry.entryPath);
    if Truthy(entry.dslPath) {
      ResolveTwo(cwd, base, entry.dslPath.value);
    } else {
      ResolveKeepsPlain(cwd, [base, entry.entryPath]);
      var dir := Dirname(file);
      assert AllPlain(dir);
      ResolveTwo(cwd, PathString(dir), "model");
      PathStringResolves(cwd, dir);
      SplitNoSeparator("model", '/');
      assert ResolveFrom(dir, ["model"]) == ResolveFrom(Walk(dir, ["model"]), []);
    }
  }

  /** A parsed entry is parsed again to itself, whatever base directory the second pass uses. */
  lemma ParseEntryIdempotent(entry: Entry, base: string, base2: string, cwd: Path)
    requires AllPlain(cwd)
    ensures ParseEntry(ParseEntry(entry, base, cwd), base2, cwd) == ParseEntry(entry, base, cwd)
  {
    var r := ParseEntry(entry, base, cwd);
    var file := Resolve(cwd, [base, entry.entryPath]);
    ResolveKeepsPlain(cwd, [base, entry.entryPath]);
    var dsl :=
      if Truthy(entry.dslPath) then Resolve(cwd, [base, entry.dslPath.value])
      else Resolve(cwd, [PathString(Dirname(file)), "model"]);
    if Truthy(entry.dslPath) {
      ResolveKeepsPlain(cwd, [base, entry.dslPath.value]);
    } else {
      ResolveKeepsPlain(cwd, [PathString(Dirname(file)), "model"]);
    }
    assert AllPlain(dsl);
    ResolveTwo(cwd, base2, r.entryPath);
    PathStringResolves(ResolveFrom(cwd, [base2]), file);
    PathStringTruthy(dsl);
    ResolveTwo(cwd, base2, r.dslPath.value);
    PathStringResolves(ResolveFrom(cwd, [base2]), dsl);
  }

  /** `parseOption` applied to its own result changes nothing. */
  lemma {:induction false} ParseConfigIdempotent(option: ZElpisConfig, cwd: Path)
    requires AllPlain(cwd)
    ensures ParseConfig(ParseConfig(option, cwd), cwd) == ParseConfig(option, cwd)
  {
    var once := ParseConfig(option, cwd);
    var base := BaseDir(option.baseDir, cwd);
    var twice := ParseConfig(once, cwd);
    forall i | 0 <= i < |option.entrys|
      ensures twice.entrys[i] == once.entrys[i]
    {
      ParseEntryIdempotent(option.entrys[i], base, base, cwd);
    }
  }

  /** Every parsed entry names its DSL directory. */
  lemma ParsedEntriesHaveDsl(option: ZElpisConfig, cwd: Path)
    ensures forall i :: 0 <= i < |ParseConfig(option, cwd).entrys| ==>
      Truthy(ParseConfig(option, cwd).entrys[i].dslPath)
  {
  }

  /**
   * `{ ...option, ...config.zelpis }` (line 55): a `baseDir` property of `config.zelpis`, even
   * one that is `undefined`, wins over the plugin's.
   */
  function Merge(optionBaseDir: Prop<string>, zelpis: ZElpisConfig): (r: ZElpisConfig)
    ensures r.entrys == zelpis.entrys && r.defaultHtml == zelpis.defaultHtml
    ensures r.baseDir == if zelpis.baseDir.Absent? then optionBaseDir else zelpis.baseDir
  {
    if zelpis.baseDir.Absent? then zelpis.(baseDir := optionBaseDir) else zelpis
  }

  /**
   * The directory `parseOption` resolves against after the merge: a non-empty `baseDir` of
   * `config.zelpis`; the working directory when `config.zelpis` has the property but it is
   * `undefined` or empty; the plugin's choice only when `config.zelpis` lacks the property.
   */
  lemma MergedBaseDir(optionBaseDir: Prop<string>, zelpis: ZElpisConfig, cwd: Path)
    ensures var base := BaseDir(Merge(optionBaseDir, zelpis).baseDir, cwd);
      && (zelpis.baseDir.Has? && zelpis.baseDir.value != "" ==> base == zelpis.baseDir.value)
      && (zelpis.baseDir.Undefined? || zelpis.baseDir == Has("") ==> base == PathString(cwd))
      && (zelpis.baseDir.Absent? ==> base == BaseDir(optionBaseDir, cwd))
  {
  }

  datatype RenderError = RenderConfigNotFound

  /** The `config` hook's result: the parsed configuration written back to `config.zelpis`. */
  function RenderConfig(optionBaseDir: Prop<string>, zelpis: Option<ZElpisConfig>, cwd: Path): Result<ZElpisConfig, RenderError> {
    if zelpis.None? then Failure(RenderConfigNotFound)
    else Success(ParseConfig(Merge(optionBaseDir, zelpis.value), cwd))
  }

  /**
   * The hook throws exactly when `config.zelpis` is missing; otherwise every entry of the
   * result is the entry of `config.zelpis` parsed against the merged base directory.
   */
  lemma RenderConfigEntries(optionBaseDir: Prop<string>, zelpis: Option<ZElpisConfig>, cwd: Path)
    ensures RenderConfig(optionBaseDir, zelpis, cwd).Failure? <==> zelpis.None?
    ensures zelpis.Some? ==>
      var r := RenderConfig(optionBaseDir, zelpis, cwd).value;
      var base := BaseDir(if zelpis.value.baseDir.Absent? then optionBaseDir else zelpis.value.baseDir, cwd);
      && |r.entrys| == |zelpis.value.entrys|
      && r.defaultHtml == zelpis.value.defaultHtml
      && forall i :: 0 <= i < |r.entrys| ==> r.entrys[i] == ParseEntry(zelpis.value.entrys[i], base, cwd)
  {
  }

  /**
   * `parsedConfig` (line 37): the keys `Object.assign` has copied into it so far; a property
   * the source object lacks leaves the one already there, while one it has as `undefined`
   * overwrites it.
   */
  datatype Assigned = Assigned(entrys: Option<seq<Entry>>, defaultHtml: Prop<HtmlConfig>, baseDir: Prop<string>)

  /** `Object.assign(target, source)` (line 57). */
  function Assign(target: Assigned, source: ZElpisConfig): (r: Assigned)
    ensures r.entrys == Some(source.entrys)
    ensures r.defaultHtml == (if source.defaultHtml.Absent? then target.defaultHtml else source.defaultHtml)
    ensures r.baseDir == (if source.baseDir.Absent? then target.baseDir else source.baseDir)
  {
    Assigned(Some(source.entrys),
             if source.defaultHtml.Absent? then target.defaultHtml else source.defaultHtml,
             if source.baseDir.Absent? then target.baseDir else source.baseDir)
  }

  /** `parseOption` mutating the entries in place (lines 23-29). */
  method ParseOption(entrys: array<Entry>, baseDir: Prop<string>, cwd: Path)
    modifies entrys
    ensures entrys[..] == ParseEntries(old(entrys[..]), BaseDir(baseDir, cwd), cwd)
  {
    ghost var before := entrys[..];
    var i := 0;
    while i < entrys.Length
      invariant 0 <= i <= entrys.Length
      invariant forall k :: 0 <= k < i ==> entrys[k] == ParseEntry(before[k], BaseDir(baseDir, cwd), cwd)
      invariant forall k :: i <= k < entrys.Length ==> entrys[k] == before[k]
    {
      var base := if baseDir.Has? && baseDir.value != "" then baseDir.value else PathString(cwd);
      entrys[i] := ParseEntry(entrys[i], base, cwd);
      i := i + 1;
    }
  }

  /** The render plugin instance: its option and the object its virtual module serialises. */
  class RenderPlugin {
    const optionBaseDir: Prop<string>
    var parsedConfig: Assigned

    /** `renderPlugin(option)` (lines 34-37). */
    constructor(baseDir: Prop<string>)
      ensures optionBaseDir == baseDir && parsedConfig == Assigned(None, Absent, Absent)
    {
      optionBaseDir := baseDir;
      parsedConfig := Assigned(None, Absent, Absent);
    }

    /** The `config` hook (lines 51-58); it returns what it writes to `config.zelpis`. */
    method Config(zelpis: Option<ZElpisConfig>, cwd: Path) returns (result: Result<ZElpisConfig, RenderError>)
      modifies this
      ensures result == RenderConfig(optionBaseDir, zelpis, cwd)
      ensures result.Success? ==> parsedConfig == Assign(old(parsedConfig), result.value)
      ensures result.Failure? ==> parsedConfig == old(parsedConfig)
    {
      if zelpis.None? {
        return Failure(RenderConfigNotFound);
      }
      var merged := Merge(optionBaseDir, zelpis.value);
      var entrys := new Entry[|merged.entrys|](i requires 0 <= i < |merged.entrys| => merged.entrys[i]);
      assert entrys[..] == merged.entrys;
      ParseOption(entrys, merged.baseDir, cwd);
      var parsed := merged.(entrys := entrys[..]);
      parsedConfig := Assign(parsedConfig, parsed);
      result := Success(parsed);
    }
  }
}
