# Zelpis build and render plugins, modelled in Dafny

Zelpis renders pages from DSL modules. Two Vite plugins carry the core logic.

The **build plugin** (`packages/builder/src/plugins/builder-plugin.ts`):

- Its `config` hook discovers the DSL modules of every configured entry.
- For each module it writes a generated HTML file into the package directory.
- It hands the bundler an input map, from route key to file.
- Before each write it records a backup ledger: the original text of each file, or `null` when the file is new, plus the directories it created.
- Its `buildEnd` hook plays that ledger back.

The **render plugin** (`packages/render/src/plugins/render-plugin.ts`):

- It normalises the entry paths of the configuration (`parseOption`).
- In development it serves each DSL route with one middleware per entry. The middleware:
  - gates the request url;
  - derives the route segments;
  - checks that the route's directory chain exists;
  - loads the base module and one override per segment;
  - answers with the HTML template, its placeholders replaced.

The model:

- Paths are segment sequences. `path.resolve` is a left fold that resets on an absolute argument, drops empty and `.` pieces, and pops on `..`.
- The filesystem is a value: a map of files plus a set of directories.
- A JavaScript `Map` is an insertion-ordered map and a `Set` an insertion-ordered sequence.
- `Array.prototype.sort` is a stable insertion sort by a key.
- String `.replace` expands JavaScript's `$` patterns.

Each hook is stated as a function. The plugins' closure state becomes a class: `BuildPlugin` with `fs`, `fileBackups` and `createdDirs`, and `RenderPlugin` with `parsedConfig`. Each method of those classes is proved equal to its function. The lemmas state what the hooks promise:

- Build plugin:
  - the staging/rollback round trip;
  - where a module's file goes and what its input key says;
  - which modules' pages the bundler input map keeps;
  - which modules collide.
- Render plugin:
  - the first-index lookup;
  - what `checkDslExists` really checks;
  - the override list;
  - the url round trip;
  - the script url.

The build plugin's class follows the code as written. The corrections of the findings below are separate definitions: the staging step `StageFileFixed`, with its own round trip, and the input key `InputKeyFixed`, with its own bundling lemma.

The model departs from the project's design notes where the code disagrees with them, and follows the code:

- `buildEnd` never clears `fileBackups` or `createdDirs` (lines 62-84). The notes call the ledger discarded after rollback.
- `buildEnd` has no per-item error handling: the first filesystem call that throws ends the hook. The notes describe the rollback as best-effort.

## Model

| member | source | states |
|---|---|---|
| BuilderEntries.GetDslEntrys | packages/builder/src/plugins/builder-plugin.ts:34-50 | one entry per globbed file, in glob order, each with that file's name, segments, resolved path and loaded payload; the whole call fails exactly when one load fails |
| BuilderEntries.RouteOfGlobPath | packages/builder/src/plugins/builder-plugin.ts:37-41 | a module at the DSL root is route `index` with no segments; any other module's segments are its directories and its name joins them with `/` |
| BuilderEntries.ResolvePlainArgs | packages/builder/src/plugins/builder-plugin.ts:117 | `path.resolve` with empty or plain arguments appends the non-empty ones to the start directory |
| BuilderEntries.OutputArgsPlain | packages/builder/src/plugins/builder-plugin.ts:115-117 | the base name, the segments and the popped file name (`index` when empty) with `.html` are the route's HTML file |
| BuilderEntries.OutputPathOfPlainRoute | packages/builder/src/plugins/builder-plugin.ts:111-117 | for plain names the generated file is the temp directory followed by the route's HTML file |
| BuilderEntries.OutputPathNested | packages/builder/src/plugins/builder-plugin.ts:111-117 | `/docs` with segments `["guide"]` writes `docs/guide.html` under the temp directory |
| BuilderEntries.OutputPathRoot | packages/builder/src/plugins/builder-plugin.ts:111-117 | `/` with no segments writes `index.html` under the temp directory |
| BuilderEntries.OutputPathBaseOnly | packages/builder/src/plugins/builder-plugin.ts:111-117 | `/docs` with no segments writes `docs.html` under the temp directory |
| BuilderEntries.HtmlFileCollision | packages/builder/src/plugins/builder-plugin.ts:115-117 | two plain routes share an HTML file if and only if they are equal or are the empty route and the route `index` |
| BuilderEntries.OutputPathsCollide | packages/builder/src/plugins/builder-plugin.ts:111-117 | two modules of any entries get the same output file exactly when their routes collide as above |
| BuilderEntries.InputKeyNamesOutputFile | packages/builder/src/plugins/builder-plugin.ts:110-156 | for a module below the DSL root, and for the root module of an entry without a base name, the input key followed by `.html` is the generated file's path relative to the temp directory; the root module of an entry with base name `n` has the key `n/index` but writes `n.html` |
| BuilderEntries.IndexKeyCollision | packages/builder/src/plugins/builder-plugin.ts:110-156 | the DSL root module and a module in a directory `index` get the same input key under one entry, and their output files differ exactly when the entry has a base name |
| BuilderEntries.InsertedLastWins | packages/builder/src/plugins/builder-plugin.ts:156 | assigning inputs in order: the keys are the old ones plus the inputs' keys, each input key holds the file of the last input carrying it, and other keys keep their file |
| BuilderEntries.InsertedHoldsEveryFile | packages/builder/src/plugins/builder-plugin.ts:156 | when equal keys always carry equal files, every input's file survives in the map |
| BuilderEntries.RootPageNotBundled | packages/builder/src/plugins/builder-plugin.ts:110-156 | under entry `docs`, a root module followed by an `index/` module leaves `docs.html` out of the input map as written, while the corrected keys keep both pages |
| BuilderEntries.InputKeyFixedNamesOutputFile | packages/builder/src/plugins/builder-plugin.ts:156 | the corrected key followed by `.html` is the generated file's path relative to the temp directory, for every module |
| BuilderEntries.InputKeyFixedIdentifiesFile | packages/builder/src/plugins/builder-plugin.ts:156 | two modules share a corrected key exactly when they share an output file |
| BuilderEntries.FixedKeysBundleEveryPage | packages/builder/src/plugins/builder-plugin.ts:156 | under the corrected key every generated page is a bundler input |
| JsCollections.Set | packages/builder/src/plugins/builder-plugin.ts:122-126 | `Map.set` updates the value and keeps the insertion order: a new key goes last and an old key keeps its place |
| JsCollections.Add | packages/builder/src/plugins/builder-plugin.ts:138 | `Set.add` holds exactly the old members and the new one, and keeps members distinct |
| JsCollections.SortByLengthDescCorrect | packages/builder/src/plugins/builder-plugin.ts:78 | the sort by `b.length - a.length` puts longer keys first and is a permutation of its input |
| Paths.ChildIsLonger | packages/builder/src/plugins/builder-plugin.ts:78 | the string form of a path is longer than that of its directory, so the sort visits a directory after everything below it |
| FileSystem.MkdirKeepsWellFormed | packages/builder/src/plugins/builder-plugin.ts:131 | a successful `mkdirSync(dir, { recursive: true })` keeps the filesystem well formed, creates the directory and every missing ancestor, and touches no file |
| FileSystem.RemoveEmptyDirectory | packages/builder/src/plugins/builder-plugin.ts:80-81 | removing an empty directory removes that directory and nothing else |
| Materializer.BackupPrepares | packages/builder/src/plugins/builder-plugin.ts:121-127 | recording a new target with its current text, or `null`, keeps every recorded path's original state in the ledger |
| Materializer.MkdirPrepares | packages/builder/src/plugins/builder-plugin.ts:130-139 | creating the missing directory keeps the ledger valid, whichever of the new directories are recorded |
| Materializer.WritePrepared | packages/builder/src/plugins/builder-plugin.ts:149-154 | writing the recorded target keeps the ledger valid, and then every recorded path is a file |
| Materializer.StageFileKeepsLedger | packages/builder/src/plugins/builder-plugin.ts:121-154 | one staging step of a target not staged before keeps the ledger able to restore the original state |
| Materializer.StageAllKeepsLedger | packages/builder/src/plugins/builder-plugin.ts:113-157 | staging modules with distinct targets keeps the ledger restorable, including when a step throws |
| Materializer.RestoreFilesCorrect | packages/builder/src/plugins/builder-plugin.ts:64-75 | the restore loop writes back every recorded text, deletes every file recorded as `null`, leaves other files and all directories alone, and does not throw |
| Materializer.RemoveEmptyDirsCorrect | packages/builder/src/plugins/builder-plugin.ts:78-83 | the clean-up loop keeps every file, removes only listed directories, and leaves no listed directory that is present and empty |
| Materializer.RollbackRestores | packages/builder/src/plugins/builder-plugin.ts:62-84 | from a restorable ledger `buildEnd` succeeds, every file is as before staging, no old directory is gone, no directory is added, and a recorded directory left has an entry |
| Materializer.RoundTrip | packages/builder/src/plugins/builder-plugin.ts:62-84 | staging distinct targets from a well-formed filesystem and then `buildEnd` restores every file, keeps every old directory, and removes only recorded directories |
| Materializer.MissingDirs | packages/builder/src/plugins/builder-plugin.ts:133-137 | the ancestor walk, taken before `mkdirSync`, lists only directories that are missing and lie on the way to the target |
| Materializer.MissingDirsComplete | packages/builder/src/plugins/builder-plugin.ts:133-137 | the walk taken before `mkdirSync` lists every missing ancestor below the temp directory |
| Materializer.StageFileFixedKeepsLedger | packages/builder/src/plugins/builder-plugin.ts:121-139 | the corrected step keeps the ledger restorable and records every directory it creates, even for a repeated target |
| Materializer.StageAllFixedKeepsLedger | packages/builder/src/plugins/builder-plugin.ts:113-157 | the corrected staging keeps those two properties for any sequence of modules |
| Materializer.NoNewDirsLeft | packages/builder/src/plugins/builder-plugin.ts:77-83 | when every new directory is recorded and every recorded directory left has an entry, no new directory is left |
| Materializer.RoundTripFixed | packages/builder/src/plugins/builder-plugin.ts:62-84 | with the corrected step, staging then `buildEnd` gives back exactly the starting filesystem, with repeated targets allowed |
| Materializer.AncestorDirLeaks | packages/builder/src/plugins/builder-plugin.ts:130-139 | staging `/a/b/x.html` into an empty root and rolling back leaves the empty directory `/a`; the corrected step gives the root back |
| Materializer.RepeatedTargetLeaks | packages/builder/src/plugins/builder-plugin.ts:121-127 | two modules on `/index.html` leave the first generated page behind after rollback; the corrected step deletes it |
| BuilderPlugin.Discover | packages/builder/src/plugins/builder-plugin.ts:101-109 | the discovery of every entry succeeds if and only if each entry's does, with the results in entry order |
| BuilderPlugin.ModuleJobs | packages/builder/src/plugins/builder-plugin.ts:113-157 | one job per module, in order, whose file is that module's output path and whose text is its page |
| BuilderPlugin.StageModulesIsStageAll | packages/builder/src/plugins/builder-plugin.ts:113-157 | staging one entry's modules is staging its job list: same ledger and filesystem, and it throws exactly when that does, with the same error |
| BuilderPlugin.StageEntriesIsStageAll | packages/builder/src/plugins/builder-plugin.ts:110-160 | the `reduce` over the entries leaves the same ledger and filesystem as staging the concatenated job lists |
| BuilderPlugin.ConfigHookStages | packages/builder/src/plugins/builder-plugin.ts:85-163 | once the temp directory is in place, `config` stages exactly the jobs of its configuration |
| BuilderPlugin.ConfigRoundTrip | packages/builder/src/plugins/builder-plugin.ts:89-157 | when no two modules share an output file, `config` and then `buildEnd` bring every file back and keep every old directory |
| BuilderPlugin.StageModulesInputsExist | packages/builder/src/plugins/builder-plugin.ts:149-156 | every input key recorded while staging one entry maps to a file that exists |
| BuilderPlugin.StageEntriesInputsExist | packages/builder/src/plugins/builder-plugin.ts:110-160 | every input the `reduce` returns maps to a file that exists |
| BuilderPlugin.StageModulesInputMap | packages/builder/src/plugins/builder-plugin.ts:113-157 | one entry's `forEach` leaves the input map with that entry's inputs assigned in module order |
| BuilderPlugin.StageEntriesInputMap | packages/builder/src/plugins/builder-plugin.ts:110-160 | the `reduce` leaves the input map with every entry's inputs assigned in order |
| BuilderPlugin.ConfigInputMap | packages/builder/src/plugins/builder-plugin.ts:156-162 | the map `config` returns has exactly the keys of the staged modules, and each key holds the output file of the last module that carries it |
| BuilderPlugin.ConfigInputsNameJobs | packages/builder/src/plugins/builder-plugin.ts:113-156 | the inputs `config` assigns name exactly the files it stages, one for one and in order |
| BuilderPlugin.ConfigInputsExist | packages/builder/src/plugins/builder-plugin.ts:89-162 | every bundler input names an existing generated file; with no `zelpis` configuration `config` throws after creating the temp directory |
| BuilderPlugin.BuildPlugin.constructor | packages/builder/src/plugins/builder-plugin.ts:52-57 | the plugin starts with an empty `fileBackups` and an empty `createdDirs`, `fileBackups` being a well-formed `Map` |
| BuilderPlugin.BuildPlugin.Stage | packages/builder/src/plugins/builder-plugin.ts:114-154 | one module: the output path it computes, and the new filesystem and ledger, equal the staging step; `fileBackups` stays a well-formed `Map` |
| BuilderPlugin.BuildPlugin.BuildEnd | packages/builder/src/plugins/builder-plugin.ts:62-84 | from a well-formed `fileBackups`, the filesystem and outcome equal the rollback of the ledger, and both ledgers are left as they were |
| BuilderPlugin.BuildPlugin.DiscoverEntries | packages/builder/src/plugins/builder-plugin.ts:101-109 | the discovery loop returns what discovery of all entries gives |
| BuilderPlugin.BuildPlugin.StageEntry | packages/builder/src/plugins/builder-plugin.ts:113-157 | the inner `forEach` leaves the state and input map of staging that entry's modules |
| BuilderPlugin.BuildPlugin.StageAllEntries | packages/builder/src/plugins/builder-plugin.ts:110-160 | the outer `forEach` over the entries leaves the state and result of staging every entry from an empty input map |
| BuilderPlugin.BuildPlugin.Config | packages/builder/src/plugins/builder-plugin.ts:85-163 | the state and result equal the `config` hook |
| JsReplace.IndexFrom | packages/builder/src/plugins/builder-plugin.ts:152-153 | the match `.replace` uses is the first occurrence of the placeholder, and there is none exactly when it does not occur |
| JsReplace.ReplaceWithoutPatternIsLiteral | packages/builder/src/plugins/builder-plugin.ts:152-153 | when no `$` in the replacement is followed by `$`, `&`, `` ` `` or `'`, `.replace` is the literal substitution of the first occurrence |
| JsReplace.ExpandEmbeddedAmpersand | packages/builder/src/plugins/builder-plugin.ts:153 | a replacement with `$&` between pattern-free text comes out with the matched text in place of the `$&` |
| JsReplace.ReplaceEmbeddedAmpersand | packages/builder/src/plugins/builder-plugin.ts:153 | `.replace` with such a replacement puts the placeholder's own text back between the two pieces of the replacement, where the placeholder was |
| JsReplace.DollarAmpersandKeepsPlaceholder | packages/builder/src/plugins/builder-plugin.ts:153 | replacing a placeholder that occurs with `$&` gives back the string unchanged |
| HtmlPage.PageWithoutDollarPattern | packages/builder/src/plugins/builder-plugin.ts:151-153 | a script in which no `$` is followed by `$`, `&`, `` ` `` or `'` (such as one holding `window.$zelpis`) gives the same page through `.replace` as through literal substitution |
| HtmlPage.DollarAmpersandInScript | packages/builder/src/plugins/builder-plugin.ts:151-153 | a script that embeds `$&` comes out of the page as written with the inject placeholder's text in place of the `$&`, and differs from the corrected page whenever the placeholder is not two characters long |
| HtmlPage.PageFixedHoldsScript | packages/builder/src/plugins/builder-plugin.ts:151-153 | the corrected page holds the script verbatim where the inject placeholder was, with the text on both sides kept |
| RenderOptions.ParseEntries | packages/render/src/plugins/render-plugin.ts:22-32 | every entry, in order, is parsed against the same base directory |
| RenderOptions.ParseEntryPaths | packages/render/src/plugins/render-plugin.ts:24-28 | the entry file is resolved against the base directory; the DSL directory is resolved too when given, else it is `model` beside the entry file; base path and HTML settings are kept |
| RenderOptions.ParseEntryIdempotent | packages/render/src/plugins/render-plugin.ts:22-32 | parsing a parsed entry again, against any base directory, changes nothing |
| RenderOptions.ParseConfigIdempotent | packages/render/src/plugins/render-plugin.ts:22-32 | `parseOption` applied to its own result changes nothing |
| RenderOptions.Merge | packages/render/src/plugins/render-plugin.ts:55 | the entries and default HTML come from `config.zelpis`, and its `baseDir` property, even when `undefined`, wins over the plugin option's |
| RenderOptions.MergedBaseDir | packages/render/src/plugins/render-plugin.ts:24-25 | after the merge, entries resolve against a non-empty `baseDir` of `config.zelpis`, against the working directory when that property is `undefined` or empty, and against the plugin's choice only when the property is missing |
| RenderOptions.RenderConfigEntries | packages/render/src/plugins/render-plugin.ts:51-58 | `config` throws if and only if `config.zelpis` is missing; otherwise each result entry is that entry parsed against the merged base directory |
| RenderOptions.Assign | packages/render/src/plugins/render-plugin.ts:57 | `Object.assign` copies the entries and every property the source has, `undefined` ones included, and keeps the old value of a property it lacks |
| RenderOptions.ParseOption | packages/render/src/plugins/render-plugin.ts:22-32 | the in-place `forEach` leaves every array element parsed |
| RenderOptions.RenderPlugin.constructor | packages/render/src/plugins/render-plugin.ts:34-37 | `parsedConfig` starts empty |
| RenderOptions.RenderPlugin.Config | packages/render/src/plugins/render-plugin.ts:51-58 | the written-back configuration is the hook's result; `parsedConfig` takes it on success and is unchanged when the hook throws |
| DslResolver.FirstExistingIsFirst | packages/render/src/plugins/render-plugin.ts:77-82 | the lookup gives the first candidate that exists, and the directory itself if and only if none does |
| DslResolver.ModuleEntryFirstIndex | packages/render/src/plugins/render-plugin.ts:75-85 | for a directory, the result is the first existing of `index.ts`, `index.js`, `index.json`; else, or when none exists, the argument |
| DslResolver.ModuleEntryExists | packages/render/src/plugins/render-plugin.ts:84 | the result exists if and only if the argument does |
| DslResolver.ResolveModuleEntry | packages/render/src/plugins/render-plugin.ts:75-85 | the loop with early return computes the lookup |
| DslResolver.PrefixIsResolvedChain | packages/render/src/plugins/render-plugin.ts:98-106 | prefix `i` is the model directory resolved with the first `i + 1` segments |
| DslResolver.PrefixesOfPlainNames | packages/render/src/plugins/render-plugin.ts:98-106 | with plain segments, prefix `i` is the model directory followed by the first `i + 1` segments |
| DslResolver.CumulativePrefixes | packages/render/src/plugins/render-plugin.ts:98-106 | the mutating `reduce` builds exactly the prefix chain |
| DslResolver.ReresolvePrefix | packages/render/src/plugins/render-plugin.ts:117 | resolving an absolute prefix against the model directory gives the prefix |
| DslResolver.DslExistsIsChainExists | packages/render/src/plugins/render-plugin.ts:87-119 | `checkDslExists` is true if and only if the model directory is set and it exists (no segments), or every prefix exists; index files play no part |
| DslResolver.DslExistsFixedLoadsIndex | packages/render/src/plugins/render-plugin.ts:115-118 | the corrected check passes only routes the original passes, and then the module loaded last is an existing index file in the target directory |
| DslResolver.DirectoryWithoutIndexPasses | packages/render/src/plugins/render-plugin.ts:115-118 | the directory `/m/a` without index files passes the check for route `a`; the corrected check rejects it |
| DslResolver.CheckDslExists | packages/render/src/plugins/render-plugin.ts:87-119 | the loops and early returns compute `checkDslExists` |
| DslResolver.Overrides | packages/render/src/plugins/render-plugin.ts:139-147 | the `Promise.all` rejects if and only if one load rejects; otherwise it gives one override per prefix, in order |
| DslResolver.OverrideOfPrefix | packages/render/src/plugins/render-plugin.ts:140-146 | each override is `{}` for a missing directory, else the default export of that directory's module, or `{}` when that export is missing or `null` |
| DslResolver.LoadDslMergesChain | packages/render/src/plugins/render-plugin.ts:121-150 | with segments, the payload is `mergeDsl` of the base module's default export, as it is, and one override per segment, root to leaf, each `{}` for a missing directory or a missing or `null` export |
| DslResolver.GatedOverridesAreLoaded | packages/render/src/plugins/render-plugin.ts:139-147 | after `checkDslExists` passes, every override comes from a loaded module (its default export, or `{}` when that is missing or `null`), never from a missing directory |
| DevMiddleware.DslNameOf | packages/render/src/plugins/render-plugin.ts:185-187 | every route segment is non-empty and holds no `/` |
| DevMiddleware.DslNameOfRoute | packages/render/src/plugins/render-plugin.ts:185-187 | the route part of a url, with or without its leading `/`, gives back its segments |
| DevMiddleware.UrlRoundTrip | packages/render/src/plugins/render-plugin.ts:169-187 | the url of a route under an absolute base path is taken by that base path's middleware and yields exactly the route's segments |
| DevMiddleware.BasePathHasNoBoundary | packages/render/src/plugins/render-plugin.ts:182-187 | the middleware of `/docs` takes `/docsfoo/` as route `foo` |
| DevMiddleware.DotDotPassesGate | packages/render/src/plugins/render-plugin.ts:173-187 | `/../secret/` passes the gate of `/` as the route `..`, `secret` |
| DevMiddleware.DotDotLeavesModelDir | packages/render/src/plugins/render-plugin.ts:129-137 | the chain of that route under the model directory `/m` is `/` and then `/secret`, both outside it |
| DevMiddleware.Slashes | packages/render/src/plugins/render-plugin.ts:157 | every backslash becomes `/` and every other character is kept |
| DevMiddleware.RelativeResolves | packages/render/src/plugins/render-plugin.ts:157 | resolving `path.relative(from, to)` from `from` gives back `to` |
| DevMiddleware.ScriptSrcUnderRoot | packages/render/src/plugins/render-plugin.ts:157 | for an entry file under the server root, the script url is that file's path below the root |
| DevMiddleware.HandleAnswersOnlyExistingRoutes | packages/render/src/plugins/render-plugin.ts:167-223 | a middleware answers only a GET under its base path whose directory chain exists, with status 200, `text/html` and the page of the loaded payload |
| DevMiddleware.DeclinedIsNext | packages/render/src/plugins/render-plugin.ts:169-183 | a declined request goes to `next()` whatever the filesystem holds |
| DevMiddleware.ChainFirstClaims | packages/render/src/plugins/render-plugin.ts:152-225 | in a middleware stack, an answer that is not `next()` comes from the first middleware that does not pass the request on, and every middleware before it passed |
| DevMiddleware.ServeFirstClaims | packages/render/src/plugins/render-plugin.ts:152-225 | a request is answered by the first entry's middleware that does not pass it on |

## Left out

- Filesystem: there are no symlinks, permissions, file modes or concurrent writers. `path.resolve` on non-posix platforms is not modelled.
- File contents are decoded text. Backups are read and written back as UTF-8 (lines 73 and 122), so the round trips (`RoundTrip`, `RoundTripFixed`, `ConfigRoundTrip`) are exact only for targets that held valid UTF-8; bytes of any other file are not modelled.
- `resolvePackageJSON`, the glob, the DSL loaders (`loadDsl`, `ssrLoadModule`), `mergeDsl` and `resolveHtmlTemplate` are parameters of the model. So are `transformIndexHtml`, `dedent` with `JSON.stringify` (the inject script) and the text of the two placeholders. Their behaviour is not interpreted.
- Promise concurrency: every `Promise.all` is taken in order. Discovery finishes before staging, as in the code. A rejection is the first failing element.
- `config.build ||= {}` and the assignment to `config.build.rollupOptions.input` are not modelled as host-object updates: `Config` returns the input map.
- The render plugin's `resolveId` and `load` hooks for the virtual module, and `ssrFixStacktrace`, are not modelled. They hold no logic beyond serialising `parsedConfig`.
- HTTP objects: a request is its method and url. A response is `next()`, `next(e)`, or the status, content type and body. Headers other than `Content-Type` are not modelled.
- `transformIndexHtml` and `resolveHtmlTemplate` are treated as not throwing. Only module loads can reach `next(e)`.
- BuilderPlugin.BuildPlugin.Stage: the template resolution at lines 142-147 is folded into the page the caller passes.
- DevMiddleware.HandleAnswersOnlyExistingRoutes: the template is resolved per request in the model. The code resolves it once per entry when the server starts, which gives the same value because it is a pure function of its inputs here.
- RenderOptions.ParseOption: entries are values in an array. The aliasing of `config.zelpis` with `parsedConfig`'s entries (the same objects) is not modelled.
- Paths in the render plugin are strings in the code and segment paths in the model. A resolved string is represented by its path. `PathStringResolves` shows that resolving a string form gives back the path.

## Findings

| source | as written | input that shows it | evidently intended | confidence | as-written member | corrected member |
|---|---|---|---|---|---|---|
| packages/builder/src/plugins/builder-plugin.ts:130-139 | `mkdirSync(entryDir, { recursive: true })` runs before the ancestor walk, so the walk sees `entryDir` already present and records only `entryDir`; ancestors created by the same call are never recorded | empty root, one module written to `/a/b/x.html`: `buildEnd` leaves the empty directory `/a` | every directory the step creates is recorded and removed again if empty (comment at line 132) | high, not executed | Materializer.AncestorDirLeaks | Materializer.RoundTripFixed |
| packages/builder/src/plugins/builder-plugin.ts:121-127 | a target staged a second time is backed up again, now holding the first module's generated page | the DSL root and a DSL directory named `index` under entry `/` both write `/index.html`; `buildEnd` writes the first page back instead of deleting the file | the first backup of a path is kept, so the original state comes back | medium, not executed | Materializer.RepeatedTargetLeaks | Materializer.RoundTripFixed |
| packages/builder/src/plugins/builder-plugin.ts:151-153 | the inject script is passed to `.replace` as a replacement string, so `$&`, `` $` ``, `$'` and `$$` inside the DSL's JSON are expanded | a DSL whose props hold the string value `"$&"`: `JSON.stringify` puts `$&` inside the script, and the page gets the inject placeholder's text there instead | the script is inserted verbatim (a replacer function) | medium, not executed | HtmlPage.DollarAmpersandInScript | HtmlPage.PageFixedHoldsScript |
| packages/render/src/plugins/render-plugin.ts:115-118 | `resolveModuleEntry` falls back to the directory itself, which exists, so the final `existsSync` is always true | model directory `/m` with an empty subdirectory `a`: the route `a` passes the check, and the middleware then loads a directory as a module | the check passes only when the last directory has an index file (comment at line 115) | medium, not executed | DslResolver.DirectoryWithoutIndexPasses | DslResolver.DslExistsFixedLoadsIndex |
| packages/builder/src/plugins/builder-plugin.ts:156 | the input key is the base name and the module's route name, and the DSL root and a directory `index` are both named `index`, so their keys coincide although their files differ | entry `/docs` whose DSL has `index.ts` and `index/index.ts`: both get the key `docs/index`, the second overwrites the first, and `docs.html` is generated and staged but never bundled | each generated page is its own bundler input (a key derived from the output file) | medium, not executed | BuilderEntries.RootPageNotBundled | BuilderEntries.FixedKeysBundleEveryPage |
