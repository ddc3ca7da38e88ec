/**
 * The build plugin (packages/builder/src/plugins/builder-plugin.ts). Its `config` hook makes
 * sure the temp directory exists, discovers the DSL modules of every entry, and stages one HTML
 * file per module while it fills the bundler's input map; its `buildEnd` hook plays the ledger
 * back. The hooks are stated as functions first and then as the methods of a class whose fields
 * are the plugin's closure state.
 */
module BuilderPlugin {
  import opened Wrappers
  import opened Strings
  import opened Paths
  import opened FileSystem
  import opened JsCollections
  import opened ZelpisTypes
  import opened HtmlPage
  import opened BuilderEntries
  import opened Materializer

  /** What `config` throws. */
  datatype ConfigError =
    | RenderConfigNotFound       // no `zelpis` field (line 96)
    | DslLoadFailed              // a DSL module failed to load during discovery
    | DslEntriesMissing          // an entry without `dslPath` has no `dslEntrys` to iterate (line 113)
    | FsFailure(error: FsError)  // a filesystem call threw

  /**
   * The collaborators the plugin calls and this model does not interpret: the glob of a DSL
   * directory, the DSL loader, the HTML template resolver, the inject-script builder (`dedent`
   * and `JSON.stringify`) and the two standard placeholders.
   */
  datatype Host = Host(
    glob: string -> seq<string>,
    loadDsl: (string, seq<string>) -> Option<Json>,
    resolveHtml: Entry -> string,
    inject: (string, Json) -> string,
    placeholders: Placeholders)

  /** The discovery result of one entry: None when loading threw, Some(None) when it has no DSL. */
  function Found(cwd: Path, item: Entry, host: Host): Option<Option<seq<DslEntry>>> {
    if Truthy(item.dslPath) then
      var dslPath := item.dslPath.value;
      match GetDslEntrys(cwd, dslPath, host.glob(dslPath), host.loadDsl)
      case None => None
      case Some(dsls) => Some(Some(dsls))
    else Some(None)
  }

  /** Lines 101-109: discovery for every entry, all of it before any staging; one failure rejects. */
  function Discover(cwd: Path, items: seq<Entry>, host: Host): (r: Option<seq<Option<seq<DslEntry>>>>)
    ensures r.None? <==> exists i :: 0 <= i < |items| && Found(cwd, items[i], host).None?
    ensures r.Some? ==> |r.value| == |items| &&
                        forall i :: 0 <= i < |items| ==> Found(cwd, items[i], host) == Some(r.value[i])
    decreases |items|
  {
    if items == [] then Some([])
    else
      match Found(cwd, items[0], host)
      case None => None
      case Some(here) =>
        match Discover(cwd, items[1..], host)
        case None => None
        case Some(rest) => Some([here] + rest)
  }

  /** The page staged for one DSL module of an entry. */
  function PageOf(host: Host, item: Entry, dsl: DslEntry): string {
    Page(host.resolveHtml(item), host.placeholders, host.inject(item.entryPath, dsl.content))
  }

  /** The state `config` leaves and what it returns: the input map, or what it threw. */
  datatype Built = Built(tx: Tx, result: Result<map<string, Path>, ConfigError>)

  /** The inner `forEach` (lines 113-157) over the modules of one entry. */
  function StageModules(tx: Tx, tempDir: Path, host: Host, item: Entry, dsls: seq<DslEntry>,
                        input: map<string, Path>): Built
    decreases |dsls|
  {
    if dsls == [] then Built(tx, Success(input))
    else
      var entry := OutputPath(tempDir, item.basePath, dsls[0].segments);
      var s := StageFile(tx, entry, PageOf(host, item, dsls[0]));
      if s.outcome.Fail? then Built(s.tx, Failure(FsFailure(s.outcome.error)))
      else StageModules(s.tx, tempDir, host, item, dsls[1..],
                        input[InputKey(item.basePath, dsls[0].name) := entry])
  }

  /** The `reduce` (lines 110-160) over the entries, each with its discovered modules. */
  function StageEntries(tx: Tx, tempDir: Path, host: Host, items: seq<Entry>,
                        found: seq<Option<seq<DslEntry>>>, input: map<string, Path>): Built
    requires |items| == |found|
    decreases |items|
  {
    if items == [] then Built(tx, Success(input))
    else
      match found[0]
      case None => Built(tx, Failure(DslEntriesMissing))
      case Some(dsls) =>
        var b := StageModules(tx, tempDir, host, items[0], dsls, input);
        if b.result.Failure? then b
        else StageEntries(b.tx, tempDir, host, items[1..], found[1..], b.result.value)
  }

  /** Lines 89-91: the temp directory, created when it is missing. */
  function TempDirReady(fs: Fs, tempDir: Path): Result<Fs, FsError> {
    if Exists(fs, tempDir) then Success(fs) else MkdirRecursive(fs, tempDir)
  }

  /** The `config` hook (lines 85-163). */
  function ConfigHook(tx: Tx, tempDir: Path, cwd: Path, zelpis: Option<ZElpisConfig>, host: Host): Built {
    match TempDirReady(tx.fs, tempDir)
    case Failure(e) => Built(tx, Failure(FsFailure(e)))
    case Success(fs1) =>
      var tx1 := tx.(fs := fs1);
      if zelpis.None? then Built(tx1, Failure(RenderConfigNotFound))
      else
        match Discover(cwd, zelpis.value.entrys, host)
        case None => Built(tx1, Failure(DslLoadFailed))
        case Some(found) => StageEntries(tx1, tempDir, host, zelpis.value.entrys, found, map[])
  }

  /** The files one entry's modules stage, in order. */
  function ModuleJobs(tempDir: Path, host: Host, item: Entry, dsls: seq<DslEntry>): (r: seq<Job>)
    ensures |r| == |dsls|
    ensures forall j :: 0 <= j < |dsls| ==>
      r[j] == Job(OutputPath(tempDir, item.basePath, dsls[j].segments), PageOf(host, item, dsls[j]))
    decreases |dsls|
  {
    if dsls == [] then []
    else [Job(OutputPath(tempDir, item.basePath, dsls[0].segments), PageOf(host, item, dsls[0]))]
         + ModuleJobs(tempDir, host, item, dsls[1..])
  }

  /** The files the entries stage, in order, up to the first entry without modules. */
  function EntryJobs(tempDir: Path, host: Host, items: seq<Entry>, found: seq<Option<seq<DslEntry>>>): seq<Job>
    requires |items| == |found|
    decreases |items|
  {
    if items == [] || found[0].None? then []
    else ModuleJobs(tempDir, host, items[0], found[0].value) + EntryJobs(tempDir, host, items[1..], found[1..])
  }

  /** Every file `config` would stage for this configuration. */
  function ConfigJobs(tempDir: Path, cwd: Path, zelpis: Option<ZElpisConfig>, host: Host): seq<Job> {
    if zelpis.None? then []
    else
      match Discover(cwd, zelpis.value.entrys, host)
      case None => []
      case Some(found) => EntryJobs(tempDir, host, zelpis.value.entrys, found)
  }

  /** One entry's modules are staged as the list `ModuleJobs`, and the hook throws when it does. */
  lemma {:induction false} StageModulesIsStageAll(tx: Tx, tempDir: Path, host: Host, item: Entry,
                                                  dsls: seq<DslEntry>, input: map<string, Path>)
    ensures var b := StageModules(tx, tempDir, host, item, dsls, input);
      var s := StageAll(tx, ModuleJobs(tempDir, host, item, dsls));
      && b.tx == s.tx
      && (b.result.Failure? <==> s.outcome.Fail?)
      && (b.result.Failure? ==> b.result.error == FsFailure(s.outcome.error))
    decreases |dsls|
  {
    if dsls != [] {
      var jobs := ModuleJobs(tempDir, host, item, dsls);
      var entry := OutputPath(tempDir, item.basePath, dsls[0].segments);
      var s := StageFile(tx, entry, PageOf(host, item, dsls[0]));
      assert jobs[1..] == ModuleJobs(tempDir, host, item, dsls[1..]);
      if s.outcome.Pass? {
        StageModulesIsStageAll(s.tx, tempDir, host, item, dsls[1..],
                               input[InputKey(item.basePath, dsls[0].name) := entry]);
      }
    }
  }

  /** The entries are staged as the list `EntryJobs`, whatever the input map holds. */
  lemma {:induction false} StageEntriesIsStageAll(tx: Tx, tempDir: Path, host: Host, items: seq<Entry>,
                                                  found: seq<Option<seq<DslEntry>>>, input: map<string, Path>)
    requires |items| == |found|
    ensures StageEntries(tx, tempDir, host, items, found, input).tx ==
      StageAll(tx, EntryJobs(tempDir, host, items, found)).tx
    decreases |items|
  {
    if items != [] && found[0].Some? {
      var dsls := found[0].value;
      var mine := ModuleJobs(tempDir, host, items[0], dsls);
      var later := EntryJobs(tempDir, host, items[1..], found[1..]);
      StageModulesIsStageAll(tx, tempDir, host, items[0], dsls, input);
      StageAllAppend(tx, mine, later);
      var b := StageModules(tx, tempDir, host, items[0], dsls, input);
      if b.result.Success? {
        StageEntriesIsStageAll(b.tx, tempDir, host, items[1..], found[1..], b.result.value);
      }
    } else if items != [] {
      assert StageAll(tx, []) == Staged(tx, Pass);
    }
  }

  /** `config` stages exactly `ConfigJobs`, after making sure the temp directory is there. */
  lemma ConfigHookStages(tx: Tx, tempDir: Path, cwd: Path, zelpis: Option<ZElpisConfig>, host: Host)
    requires TempDirReady(tx.fs, tempDir).Success?
    ensures ConfigHook(tx, tempDir, cwd, zelpis, host).tx ==
      StageAll(tx.(fs := TempDirReady(tx.fs, tempDir).value), ConfigJobs(tempDir, cwd, zelpis, host)).tx
  {
    var tx1 := tx.(fs := TempDirReady(tx.fs, tempDir).value);
    if zelpis.Some? && Discover(cwd, zelpis.value.entrys, host).Some? {
      StageEntriesIsStageAll(tx1, tempDir, host, zelpis.value.entrys,
                             Discover(cwd, zelpis.value.entrys, host).value, map[]);
    } else {
      assert StageAll(tx1, []) == Staged(tx1, Pass);
    }
  }

  /** No two staged files share a path. */
  predicate DistinctTargets(jobs: seq<Job>) {
    forall i, j :: 0 <= i < j < |jobs| ==> jobs[i].entry != jobs[j].entry
  }

  /**
   * `config` followed by `buildEnd`, from an empty ledger: when no two modules share an output
   * file, every file is back as it was before `config`, no directory that was there is gone, and
   * every recorded directory that is left is not empty. The temp directory `config` creates is
   * not recorded and stays.
   */
  lemma ConfigRoundTrip(fs0: Fs, tempDir: Path, cwd: Path, zelpis: Option<ZElpisConfig>, host: Host)
    requires WellFormed(fs0)
    requires DistinctTargets(ConfigJobs(tempDir, cwd, zelpis, host))
    ensures var b := ConfigHook(Tx(fs0, EmptyMap(), []), tempDir, cwd, zelpis, host);
      && (forall k :: k in b.tx.backups.keys ==> k in b.tx.backups.values)
      && var a := Rollback(b.tx);
      && a.outcome.Pass? && a.fs.files == fs0.files && fs0.dirs <= a.fs.dirs
      && (forall d :: d in b.tx.created && d in a.fs.dirs ==> Children(a.fs, d) != {})
  {
    var tx0 := Tx(fs0, EmptyMap(), []);
    match TempDirReady(fs0, tempDir)
    case Failure(e) =>
      RoundTrip(fs0, []);
    case Success(fs1) =>
      if !Exists(fs0, tempDir) {
        MkdirKeepsWellFormed(fs0, tempDir);
      }
      ConfigHookStages(tx0, tempDir, cwd, zelpis, host);
      RoundTrip(fs1, ConfigJobs(tempDir, cwd, zelpis, host));
  }

  /** The modules of one entry leave every input naming a file that exists. */
  lemma {:induction false} StageModulesInputsExist(tx: Tx, tempDir: Path, host: Host, item: Entry,
                                                   dsls: seq<DslEntry>, input: map<string, Path>)
    requires forall k :: k in input ==> input[k] in tx.fs.files
    ensures var b := StageModules(tx, tempDir, host, item, dsls, input);
      b.result.Success? ==> forall k :: k in b.result.value ==> b.result.value[k] in b.tx.fs.files
    decreases |dsls|
  {
    if dsls != [] {
      var entry := OutputPath(tempDir, item.basePath, dsls[0].segments);
      StageFileKeepsFiles(tx, entry, PageOf(host, item, dsls[0]));
      var s := StageFile(tx, entry, PageOf(host, item, dsls[0]));
      if s.outcome.Pass? {
        StageModulesInputsExist(s.tx, tempDir, host, item, dsls[1..],
                                input[InputKey(item.basePath, dsls[0].name) := entry]);
      }
    }
  }

  lemma {:induction false} StageEntriesInputsExist(tx: Tx, tempDir: Path, host: Host, items: seq<Entry>,
                                                   found: seq<Option<seq<DslEntry>>>, input: map<string, Path>)
    requires |items| == |found|
    requires forall k :: k in input ==> input[k] in tx.fs.files
    ensures var b := StageEntries(tx, tempDir, host, items, found, input);
      b.result.Success? ==> forall k :: k in b.result.value ==> b.result.value[k] in b.tx.fs.files
    decreases |items|
  {
    if items != [] && found[0].Some? {
      StageModulesInputsExist(tx, tempDir, host, items[0], found[0].value, input);
      var b := StageModules(tx, tempDir, host, items[0], found[0].value, input);
      if b.result.Success? {
        assert forall k :: k in b.result.value ==> b.result.value[k] in b.tx.fs.files;
        StageEntriesInputsExist(b.tx, tempDir, host, items[1..], found[1..], b.result.value);
      }
    }
  }

  /**
   * When `config` returns, every bundler input (line 162) names a generated file that exists;
   * when there is no `zelpis` configuration it throws, with the temp directory in place.
   */
  lemma ConfigInputsExist(tx: Tx, tempDir: Path, cwd: Path, zelpis: Option<ZElpisConfig>, host: Host)
    ensures var b := ConfigHook(tx, tempDir, cwd, zelpis, host);
      && (b.result.Success? ==> forall k :: k in b.result.value ==> b.result.value[k] in b.tx.fs.files)
      && (zelpis.None? && TempDirReady(tx.fs, tempDir).Success? ==>
            b.result == Failure(RenderConfigNotFound) && tempDir in b.tx.fs.dirs + b.tx.fs.files.Keys)
  {
    if TempDirReady(tx.fs, tempDir).Success? {
      var fs1 := TempDirReady(tx.fs, tempDir).value;
      assert tempDir[..|tempDir|] == tempDir;
      if zelpis.Some? && Discover(cwd, zelpis.value.entrys, host).Some? {
        StageEntriesInputsExist(tx.(fs := fs1), tempDir, host, zelpis.value.entrys,
                                Discover(cwd, zelpis.value.entrys, host).value, map[]);
      }
    }
  }

  /** The bundler inputs one entry's modules assign (line 156), in order: key, then generated file. */
  function ModuleInputs(tempDir: Path, item: Entry, dsls: seq<DslEntry>): (r: seq<Input>)
    ensures |r| == |dsls|
    ensures forall j :: 0 <= j < |dsls| ==>
      r[j] == (InputKey(item.basePath, dsls[j].name), OutputPath(tempDir, item.basePath, dsls[j].segments))
    decreases |dsls|
  {
    if dsls == [] then []
    else [(InputKey(item.basePath, dsls[0].name), OutputPath(tempDir, item.basePath, dsls[0].segments))]
         + ModuleInputs(tempDir, item, dsls[1..])
  }

  /** The bundler inputs of the entries, in order, up to the first entry without modules. */
  function EntryInputs(tempDir: Path, items: seq<Entry>, found: seq<Option<seq<DslEntry>>>): seq<Input>
    requires |items| == |found|
    decreases |items|
  {
    if items == [] || found[0].None? then []
    else ModuleInputs(tempDir, items[0], found[0].value) + EntryInputs(tempDir, items[1..], found[1..])
  }

  /** Every bundler input `config` assigns for this configuration, in order. */
  function ConfigInputs(tempDir: Path, cwd: Path, zelpis: Option<ZElpisConfig>, host: Host): seq<Input> {
    if zelpis.None? then []
    else
      match Discover(cwd, zelpis.value.entrys, host)
      case None => []
      case Some(found) => EntryInputs(tempDir, zelpis.value.entrys, found)
  }

  /** Each input names the file its staging job writes. */
  lemma {:induction false} EntryInputsNameJobs(tempDir: Path, host: Host, items: seq<Entry>,
                                               found: seq<Option<seq<DslEntry>>>)
    requires |items| == |found|
    ensures var inputs, jobs := EntryInputs(tempDir, items, found), EntryJobs(tempDir, host, items, found);
      |inputs| == |jobs| && forall i :: 0 <= i < |jobs| ==> inputs[i].1 == jobs[i].entry
    decreases |items|
  {
    if items != [] && found[0].Some? {
      EntryInputsNameJobs(tempDir, host, items[1..], found[1..]);
      var mi: seq<Input> := ModuleInputs(tempDir, items[0], found[0].value);
      var ri: seq<Input> := EntryInputs(tempDir, items[1..], found[1..]);
      var mj: seq<Job> := ModuleJobs(tempDir, host, items[0], found[0].value);
      var rj: seq<Job> := EntryJobs(tempDir, host, items[1..], found[1..]);
      forall i | 0 <= i < |mj| + |rj| ensures (mi + ri)[i].1 == (mj + rj)[i].entry {
        if i >= |mj| {
          assert (mi + ri)[i] == ri[i - |mi|] && (mj + rj)[i] == rj[i - |mj|];
        }
      }
    }
  }

  /** When one entry's modules are staged, the input map is the old one with their inputs assigned in order. */
  lemma {:induction false} StageModulesInputMap(tx: Tx, tempDir: Path, host: Host, item: Entry,
                                                dsls: seq<DslEntry>, input: map<string, Path>)
    ensures var b := StageModules(tx, tempDir, host, item, dsls, input);
      b.result.Success? ==> b.result.value == Inserted(input, ModuleInputs(tempDir, item, dsls))
    decreases |dsls|
  {
    if dsls != [] {
      var entry := OutputPath(tempDir, item.basePath, dsls[0].segments);
      var s := StageFile(tx, entry, PageOf(host, item, dsls[0]));
      var inputs := ModuleInputs(tempDir, item, dsls);
      assert inputs[1..] == ModuleInputs(tempDir, item, dsls[1..]);
      if s.outcome.Pass? {
        StageModulesInputMap(s.tx, tempDir, host, item, dsls[1..],
                             input[InputKey(item.basePath, dsls[0].name) := entry]);
      }
    }
  }

  lemma {:induction false} StageEntriesInputMap(tx: Tx, tempDir: Path, host: Host, items: seq<Entry>,
                                                found: seq<Option<seq<DslEntry>>>, input: map<string, Path>)
    requires |items| == |found|
    ensures var b := StageEntries(tx, tempDir, host, items, found, input);
      b.result.Success? ==> b.result.value == Inserted(input, EntryInputs(tempDir, items, found))
    decreases |items|
  {
    if items != [] && found[0].Some? {
      var dsls := found[0].value;
      StageModulesInputMap(tx, tempDir, host, items[0], dsls, input);
      var b := StageModules(tx, tempDir, host, items[0], dsls, input);
      if b.result.Success? {
        StageEntriesInputMap(b.tx, tempDir, host, items[1..], found[1..], b.result.value);
        InsertedAppend(input, ModuleInputs(tempDir, items[0], dsls), EntryInputs(tempDir, items[1..], found[1..]));
      }
    }
  }

  /**
   * The input map `config` returns (line 162): every key is the key of some staged module, and
   * each key holds the generated file of the last module that carries it, so a module whose key
   * a later module repeats has its page staged but not bundled.
   */
  lemma ConfigInputMap(tx: Tx, tempDir: Path, cwd: Path, zelpis: Option<ZElpisConfig>, host: Host)
    ensures var b := ConfigHook(tx, tempDir, cwd, zelpis, host);
      var inputs := ConfigInputs(tempDir, cwd, zelpis, host);
      b.result.Success? ==>
        && b.result.value == Inserted(map[], inputs)
        && (forall k :: k in b.result.value <==> exists i :: 0 <= i < |inputs| && inputs[i].0 == k)
        && (forall i :: 0 <= i < |inputs| && LastWithKey(inputs, i) ==> b.result.value[inputs[i].0] == inputs[i].1)
  {
    if TempDirReady(tx.fs, tempDir).Success? && zelpis.Some? && Discover(cwd, zelpis.value.entrys, host).Some? {
      var tx1 := tx.(fs := TempDirReady(tx.fs, tempDir).value);
      StageEntriesInputMap(tx1, tempDir, host, zelpis.value.entrys,
                           Discover(cwd, zelpis.value.entrys, host).value, map[]);
    }
    InsertedLastWins(map[], ConfigInputs(tempDir, cwd, zelpis, host));
  }

  /** The inputs `config` assigns name exactly the files it stages, one for one and in order. */
  lemma ConfigInputsNameJobs(tempDir: Path, cwd: Path, zelpis: Option<ZElpisConfig>, host: Host)
    ensures var inputs, jobs := ConfigInputs(tempDir, cwd, zelpis, host), ConfigJobs(tempDir, cwd, zelpis, host);
      |inputs| == |jobs| && forall i :: 0 <= i < |jobs| ==> inputs[i].1 == jobs[i].entry
  {
    if zelpis.Some? && Discover(cwd, zelpis.value.entrys, host).Some? {
      EntryInputsNameJobs(tempDir, host, zelpis.value.entrys, Discover(cwd, zelpis.value.entrys, host).value);
    }
  }

  /** The plugin instance: its temp directory and the two ledgers its hooks share, over the filesystem. */
  class BuildPlugin {
    const htmlTempDir: Path
    var fs: Fs
    var fileBackups: OrderedMap<Path, Option<string>>
    var createdDirs: seq<Path>

    ghost function State(): Tx
      reads this
    {
      Tx(fs, fileBackups, createdDirs)
    }

    /** `fileBackups` is a well-formed `Map`: distinct keys, each with its recorded original. */
    ghost predicate Valid()
      reads this
    {
      fileBackups.Valid()
    }

    /** `buildPlugin()` (lines 52-57): empty ledgers, the temp directory being the package's. */
    constructor(tempDir: Path, fs0: Fs)
      ensures Valid()
      ensures htmlTempDir == tempDir && State() == Tx(fs0, EmptyMap(), [])
    {
      htmlTempDir := tempDir;
      fs := fs0;
      fileBackups := EmptyMap();
      createdDirs := [];
    }

    /** One module of the inner `forEach` (lines 114-154): the output file, its backup, its directory, the write. */
    method Stage(basePath: string, dsl: DslEntry, page: string) returns (entry: Path, outcome: Outcome<FsError>)
      requires Valid()
      modifies this
      ensures Valid()
      ensures entry == OutputPath(htmlTempDir, basePath, dsl.segments)
      ensures Staged(State(), outcome) == StageFile(old(State()), entry, page)
    {
      entry := OutputPath(htmlTempDir, basePath, dsl.segments);
      var entryDir := Dirname(entry);
      if Exists(fs, entry) {
        var text := ReadFile(fs, entry);
        if text.Failure? {
          return entry, Fail(text.error);
        }
        fileBackups := fileBackups.Set(entry, Some(text.value));
      } else {
        fileBackups := fileBackups.Set(entry, None);
      }
      if !Exists(fs, entryDir) {
        var made := MkdirRecursive(fs, entryDir);
        if made.Failure? {
          return entry, Fail(made.error);
        }
        fs := made.value;
        // The walk up from `entryDir` (lines 133-137) stops before its first step: `mkdirSync`
        // has just created `entryDir`, so the loop guard is already false.
        assert entryDir[..|entryDir|] == entryDir;
        assert !(entryDir != htmlTempDir && !Exists(fs, entryDir));
        createdDirs := Add(createdDirs, entryDir);
      }
      var written := WriteFile(fs, entry, page);
      if written.Failure? {
        return entry, Fail(written.error);
      }
      fs := written.value;
      outcome := Pass;
    }

    /** The `buildEnd` hook (lines 62-84); it leaves both ledgers as they are. */
    method BuildEnd() returns (outcome: Outcome<FsError>)
      requires Valid()
      modifies this
      ensures Valid()
      ensures Applied(fs, outcome) == Rollback(old(State()))
      ensures fileBackups == old(fileBackups) && createdDirs == old(createdDirs)
    {
      var keys := fileBackups.keys;
      var i := 0;
      while i < |keys|
        invariant 0 <= i <= |keys|
        invariant fileBackups == old(fileBackups) && createdDirs == old(createdDirs)
        invariant RestoreFiles(fs, keys[i..], fileBackups.values) == RestoreFiles(old(fs), keys, fileBackups.values)
      {
        var path := keys[i];
        var original := fileBackups.values[path];
        if original.None? {
          if Exists(fs, path) {
            var removed := RemoveFile(fs, path);
            if removed.Failure? {
              return Fail(removed.error);
            }
            fs := removed.value;
          }
        } else {
          var restored := WriteFile(fs, path, original.value);
          if restored.Failure? {
            return Fail(restored.error);
          }
          fs := restored.value;
        }
        assert keys[i..][1..] == keys[i + 1..];
        i := i + 1;
      }
      var sortedDirs := CleanupOrder(createdDirs);
      var j := 0;
      while j < |sortedDirs|
        invariant 0 <= j <= |sortedDirs|
        invariant fileBackups == old(fileBackups) && createdDirs == old(createdDirs)
        invariant RemoveEmptyDirs(fs, sortedDirs[j..]) == Rollback(old(State()))
      {
        var dir := sortedDirs[j];
        if Exists(fs, dir) {
          var empty := IsEmptyDir(fs, dir);
          if empty.Failure? {
            return Fail(empty.error);
          }
          if empty.value {
            fs := RemoveTree(fs, dir);
          }
        }
        assert sortedDirs[j..][1..] == sortedDirs[j + 1..];
        j := j + 1;
      }
      outcome := Pass;
    }

    /** The discovery `Promise.all` (lines 101-109): every entry's modules, or None when one load threw. */
    method DiscoverEntries(cwd: Path, items: seq<Entry>, host: Host) returns (found: Option<seq<Option<seq<DslEntry>>>>)
      ensures found == Discover(cwd, items, host)
    {
      var acc: seq<Option<seq<DslEntry>>> := [];
      var i := 0;
      while i < |items|
        invariant 0 <= i <= |items| && |acc| == i
        invariant forall k :: 0 <= k < i ==> Found(cwd, items[k], host) == Some(acc[k])
      {
        var here := Found(cwd, items[i], host);
        if here.None? {
          return None;
        }
        acc := acc + [here.value];
        i := i + 1;
      }
      ghost var discovered := Discover(cwd, items, host);
      assert discovered.Some?;
      assert discovered.value == acc;
      found := Some(acc);
    }

    /** The inner `forEach` (lines 113-157): every module of one entry staged, its input recorded. */
    method StageEntry(item: Entry, dsls: seq<DslEntry>, input0: map<string, Path>, host: Host)
      returns (result: Result<map<string, Path>, ConfigError>)
      requires Valid()
      modifies this
      ensures Valid()
      ensures Built(State(), result) == StageModules(old(State()), htmlTempDir, host, item, dsls, input0)
    {
      var input := input0;
      var j := 0;
      while j < |dsls|
        invariant 0 <= j <= |dsls|
        invariant Valid()
        invariant StageModules(State(), htmlTempDir, host, item, dsls[j..], input) ==
          StageModules(old(State()), htmlTempDir, host, item, dsls, input0)
      {
        var page := PageOf(host, item, dsls[j]);
        var entry, outcome := Stage(item.basePath, dsls[j], page);
        if outcome.Fail? {
          return Failure(FsFailure(outcome.error));
        }
        input := input[InputKey(item.basePath, dsls[j].name) := entry];
        assert dsls[j..][1..] == dsls[j + 1..];
        j := j + 1;
      }
      result := Success(input);
    }

    /** The `config` hook (lines 85-163); it returns the bundler input map it assigns at line 162. */
    method Config(cwd: Path, zelpis: Option<ZElpisConfig>, host: Host)
      returns (result: Result<map<string, Path>, ConfigError>)
      requires Valid()
      modifies this
      ensures Valid()
      ensures Built(State(), result) == ConfigHook(old(State()), htmlTempDir, cwd, zelpis, host)
    {
      if !Exists(fs, htmlTempDir) {
        var made := MkdirRecursive(fs, htmlTempDir);
        if made.Failure? {
          return Failure(FsFailure(made.error));
        }
        fs := made.value;
      }
      if zelpis.None? {
        return Failure(RenderConfigNotFound);
      }
      var items := zelpis.value.entrys;
      var discovered := DiscoverEntries(cwd, items, host);
      if discovered.None? {
        return Failure(DslLoadFailed);
      }
      result := StageAllEntries(items, discovered.value, host);
    }

    /** The outer `forEach` over the entries (lines 110-160), from an empty input map. */
    method StageAllEntries(items: seq<Entry>, found: seq<Option<seq<DslEntry>>>, host: Host)
      returns (result: Result<map<string, Path>, ConfigError>)
      requires |items| == |found|
      requires Valid()
      modifies this
      ensures Valid()
      ensures Built(State(), result) == StageEntries(old(State()), htmlTempDir, host, items, found, map[])
    {
      ghost var goal := StageEntries(State(), htmlTempDir, host, items, found, map[]);
      var input: map<string, Path> := map[];
      var i := 0;
      while i < |items|
        invariant 0 <= i <= |items|
        invariant Valid()
        invariant StageEntries(State(), htmlTempDir, host, items[i..], found[i..], input) == goal
      {
        if found[i].None? {
          return Failure(DslEntriesMissing);
        }
        assert items[i..][1..] == items[i + 1..] && found[i..][1..] == found[i + 1..];
        var staged := StageEntry(items[i], found[i].value, input, host);
        if staged.Failure? {
          return staged;
        }
        input := staged.value;
        i := i + 1;
      }
      result := Success(input);
    }
  }
}
