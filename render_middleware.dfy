/**
 * The dev-server middleware of the render plugin (packages/render/src/plugins/render-plugin.ts:152-224):
 * which requests it takes, the DSL route it reads from the url, and the page it answers with.
 * One middleware is registered per entry; a request goes through them in order.
 */
module DevMiddleware {
  import opened Wrappers
  import opened Strings
  import opened Paths
  import opened FileSystem
  import opened ZelpisTypes
  import opened HtmlPage
  import opened DslResolver

  datatype Request = Request(verb: string, url: Option<string>)

  /** `entry.basePath || '/'` (line 153). */
  function RouteBase(entry: Entry): string {
    if entry.basePath != "" then entry.basePath else "/"
  }

  /** The gating `if`s of lines 169-183: the request is left to the next middleware. */
  predicate Declines(basePath: string, req: Request) {
    || req.url.None? || req.url.value == "" || req.verb != "GET"
    || ('.' in req.url.value && !EndsWith(req.url.value, "/"))
    || StartsWith(req.url.value, "/@")
    || !StartsWith(req.url.value, basePath)
  }

  /** `dslName` (lines 185-187) from the url after the base path. */
  function DslNameOf(rest: string): (r: seq<string>)
    ensures forall i :: 0 <= i < |r| ==> r[i] != "" && '/' !in r[i]
  {
    var clean := StripLeadingSlash(BeforeFirst(rest, '?'));
    if clean != "" then
      var parts := Split(clean, '/');
      var r := NonEmpty(parts);
      assert forall i :: 0 <= i < |r| ==> r[i] in parts;
      r
    else []
  }

  /** The route segments of a request the middleware takes, or None when it declines. */
  function Gate(basePath: string, req: Request): Option<seq<string>> {
    if Declines(basePath, req) then None
    else Some(DslNameOf(req.url.value[|basePath|..]))
  }

  /** The url of a route: the base path as a directory, then each segment followed by `/`. */
  function UrlOf(basePath: string, names: seq<string>): string {
    (if EndsWith(basePath, "/") then basePath else basePath + "/") +
    (if names == [] then "" else Join(names, '/') + "/")
  }

  lemma {:induction false} JoinAvoids(parts: seq<string>, sep: char, d: char)
    requires d != sep
    requires forall i :: 0 <= i < |parts| ==> d !in parts[i]
    ensures d !in Join(parts, sep)
    decreases |parts|
  {
    if |parts| > 1 {
      JoinAvoids(parts[1..], sep, d);
    }
  }

  lemma {:induction false} JoinStartsWithFirst(parts: seq<string>, sep: char)
    requires parts != [] && parts[0] != ""
    ensures |Join(parts, sep)| > 0 && Join(parts, sep)[0] == parts[0][0]
  {
  }

  lemma {:induction false} NonEmptyDropsEmpty(parts: seq<string>)
    requires "" !in parts
    ensures NonEmpty(parts + [""]) == parts
    decreases |parts|
  {
    if parts == [] {
      assert parts + [""] == [""];
    } else {
      assert (parts + [""])[1..] == parts[1..] + [""];
      NonEmptyDropsEmpty(parts[1..]);
      assert parts == [parts[0]] + parts[1..];
    }
  }

  /** A GET url that ends in `/`, is not one of Vite's own and starts with the base path is taken. */
  lemma GateTakes(basePath: string, url: string)
    requires EndsWith(url, "/") && !StartsWith(url, "/@") && StartsWith(url, basePath)
    ensures Gate(basePath, Request("GET", Some(url))) == Some(DslNameOf(url[|basePath|..]))
  {
  }

  /** The route part of a url, with or without its leading `/`, gives back the route's segments. */
  lemma DslNameOfRoute(names: seq<string>)
    requires names != []
    requires forall i :: 0 <= i < |names| ==> names[i] != "" && '/' !in names[i] && '?' !in names[i]
    ensures DslNameOf(Join(names + [""], '/')) == names
    ensures DslNameOf("/" + Join(names + [""], '/')) == names
  {
    var parts := names + [""];
    var t := Join(parts, '/');
    JoinAvoids(parts, '/', '?');
    assert BeforeFirst(t, '?') == t;
    assert '?' !in "/" + t;
    assert BeforeFirst("/" + t, '?') == "/" + t;
    JoinStartsWithFirst(parts, '/');
    assert names[0][0] in names[0];
    assert StripLeadingSlash(t) == t;
    assert StripLeadingSlash("/" + t) == t;
    SplitJoin(parts, '/');
    NonEmptyDropsEmpty(names);
  }

  /** The url of a route starts with the base path, ends in `/`, and holds the route after it. */
  lemma UrlShape(basePath: string, names: seq<string>)
    ensures var url := UrlOf(basePath, names);
      var tail := if names == [] then "" else Join(names + [""], '/');
      && StartsWith(url, basePath) && EndsWith(url, "/")
      && url[|basePath|..] == (if EndsWith(basePath, "/") then tail else "/" + tail)
  {
    var url := UrlOf(basePath, names);
    var tail := if names == [] then "" else Join(names, '/') + "/";
    if names != [] {
      JoinAppend(names, "", '/');
      assert tail == Join(names + [""], '/');
    }
    if EndsWith(basePath, "/") {
      assert url == basePath + tail;
    } else {
      assert url == basePath + ("/" + tail);
    }
    assert url[..|basePath|] == basePath;
  }

  /**
   * The url of a route is taken by the middleware of its base path and gives back exactly that
   * route's segments, when the segments are non-empty and hold no `/` or `?`, the base path is
   * absolute without `?`, and the url does not look like one of Vite's own (`/@`).
   */
  lemma UrlRoundTrip(basePath: string, names: seq<string>)
    requires |basePath| > 0 && basePath[0] == '/' && '?' !in basePath
    requires forall i :: 0 <= i < |names| ==> names[i] != "" && '/' !in names[i] && '?' !in names[i]
    requires !StartsWith(UrlOf(basePath, names), "/@")
    ensures Gate(basePath, Request("GET", Some(UrlOf(basePath, names)))) == Some(names)
  {
    var url := UrlOf(basePath, names);
    UrlShape(basePath, names);
    GateTakes(basePath, url);
    if names != [] {
      DslNameOfRoute(names);
    } else {
      assert DslNameOf("") == [];
      assert BeforeFirst("/", '?') == "/";
      assert DslNameOf("/") == [];
    }
  }

  /**
   * The base path is matched as a bare string prefix: the middleware of `/docs` takes
   * `/docsfoo/` and reads the route `foo` from it.
   */
  lemma BasePathHasNoBoundary()
    ensures Gate("/docs", Request("GET", Some("/docsfoo/"))) == Some(["foo"])
  {
    var url := "/docsfoo/";
    assert url[..5] == "/docs";
    assert url[1] != '@';
    assert url[5..] == "foo/";
    assert Join(["foo", ""], '/') == "foo/";
    assert ["foo"] + [""] == ["foo", ""];
    DslNameOfRoute(["foo"]);
  }

  /** A `..` segment passes the gate, since the url ends in `/`. */
  lemma DotDotPassesGate()
    ensures Gate("/", Request("GET", Some("/../secret/"))) == Some(["..", "secret"])
  {
    var names := ["..", "secret"];
    assert Join(names, '/') == "../secret";
    assert UrlOf("/", names) == "/../secret/";
    assert "/../secret/"[1] != '@';
    UrlRoundTrip("/", names);
  }

  /** The chain of `..` then `secret` under the model directory `/m` is `/` and then `/secret`. */
  lemma DotDotLeavesModelDir()
    ensures Prefixes(["m"], ["..", "secret"]) == [[], ["secret"]]
  {
    SplitNoSeparator("..", '/');
    assert [".."][1..] == [];
    assert Walk(["m"], [".."]) == Walk(Step(["m"], ".."), []) == [];
    assert ResolveFrom(["m"], [".."]) == ResolveFrom(Walk(["m"], [".."]), []) == [];
    ResolvePlainSegment([], "secret");
    assert [] + ["secret"] == ["secret"];
    assert ["..", "secret"][1..] == ["secret"];
    assert ["secret"][1..] == [];
    assert Prefixes([], ["secret"]) == [ResolveFrom([], ["secret"])] + Prefixes(ResolveFrom([], ["secret"]), []);
    assert Prefixes(["m"], ["..", "secret"]) == [ResolveFrom(["m"], [".."])] + Prefixes([], ["secret"]);
  }

  /** `s.replace(/\\/g, '/')`. */
  function Slashes(s: string): (r: string)
    ensures |r| == |s|
    ensures forall i :: 0 <= i < |s| ==> r[i] == if s[i] == '\\' then '/' else s[i]
  {
    if s == [] then [] else [if s[0] == '\\' then '/' else s[0]] + Slashes(s[1..])
  }

  /** How many leading segments two paths share. */
  function CommonLength(a: Path, b: Path): (n: nat)
    ensures n <= |a| && n <= |b| && a[..n] == b[..n]
    ensures n < |a| && n < |b| ==> a[n] != b[n]
  {
    if a == [] || b == [] || a[0] != b[0] then 0
    else
      var n := 1 + CommonLength(a[1..], b[1..]);
      assert a[..n] == [a[0]] + a[1..][..n - 1];
      assert b[..n] == [b[0]] + b[1..][..n - 1];
      n
  }

  /** `k` copies of `..`. */
  function Ups(k: nat): (r: seq<string>)
    ensures |r| == k && forall i :: 0 <= i < k ==> r[i] == ".."
  {
    if k == 0 then [] else [".."] + Ups(k - 1)
  }

  /** `path.relative(from, to)` for absolute paths: up to the common ancestor, then down. */
  function Relative(from: Path, to: Path): string {
    var n := CommonLength(from, to);
    Join(Ups(|from| - n) + to[n..], '/')
  }

  lemma {:induction false} WalkAppend(acc: Path, a: seq<string>, b: seq<string>)
    ensures Walk(acc, a + b) == Walk(Walk(acc, a), b)
    decreases |a|
  {
    if a != [] {
      assert (a + b)[1..] == a[1..] + b;
      WalkAppend(Step(acc, a[0]), a[1..], b);
    } else {
      assert a + b == b;
    }
  }

  lemma {:induction false} WalkUps(acc: Path, k: nat)
    requires k <= |acc|
    ensures Walk(acc, Ups(k)) == acc[..|acc| - k]
    decreases k
  {
    if k > 0 {
      assert Ups(k)[1..] == Ups(k - 1);
      WalkUps(acc[..|acc| - 1], k - 1);
      assert acc[..|acc| - 1][..|acc| - 1 - (k - 1)] == acc[..|acc| - k];
    }
  }

  /** `path.relative` undone by `path.resolve`: resolving the relative path from `from` reaches `to`. */
  lemma RelativeResolves(from: Path, to: Path)
    requires AllPlain(to)
    ensures ResolveFrom(from, [Relative(from, to)]) == to
  {
    var n := CommonLength(from, to);
    var parts := Ups(|from| - n) + to[n..];
    assert Relative(from, to) == Join(parts, '/');
    if parts == [] {
      assert |from| == n && |to| == n;
      assert from == to by {
        assert from == from[..n] && to == to[..n];
      }
      ResolveEmpty(from);
    } else {
      assert forall i :: 0 <= i < |parts| ==> parts[i] != "" && '/' !in parts[i];
      ResolveJoined(from, parts);
      WalkRelative(from, to);
    }
  }

  /** Resolving the empty string stays where it is. */
  lemma ResolveEmpty(from: Path)
    ensures ResolveFrom(from, [Join([], '/')]) == from
  {
    assert ResolveFrom(from, [""]) == ResolveFrom(Walk(from, [""]), []);
  }

  /** Resolving a relative path written as non-empty pieces is walking those pieces. */
  lemma ResolveJoined(from: Path, parts: seq<string>)
    requires parts != []
    requires forall i :: 0 <= i < |parts| ==> parts[i] != "" && '/' !in parts[i]
    ensures ResolveFrom(from, [Join(parts, '/')]) == Walk(from, parts)
  {
    var s := Join(parts, '/');
    SplitJoin(parts, '/');
    JoinStartsWithFirst(parts, '/');
    assert !IsAbsolute(s);
    assert ResolveFrom(from, [s]) == ResolveFrom(Walk(from, parts), []);
  }

  /** Walking up to the common ancestor and then down the rest of `to` reaches `to`. */
  lemma WalkRelative(from: Path, to: Path)
    requires AllPlain(to)
    ensures var n := CommonLength(from, to);
      Walk(from, Ups(|from| - n) + to[n..]) == to
  {
    var n := CommonLength(from, to);
    WalkAppend(from, Ups(|from| - n), to[n..]);
    WalkUps(from, |from| - n);
    assert AllPlain(to[n..]);
    WalkPlain(from[..n], to[n..]);
    assert from[..n] + to[n..] == to;
  }

  /** The script url of the entry (line 157): `/` and the entry file relative to the server root. */
  function ScriptSrc(rootDir: Path, entryFile: Path): string {
    "/" + Slashes(Relative(rootDir, entryFile))
  }

  lemma {:induction false} JoinAvoidsBackslash(parts: seq<string>)
    requires forall i :: 0 <= i < |parts| ==> '\\' !in parts[i]
    ensures Slashes(Join(parts, '/')) == Join(parts, '/')
  {
    JoinAvoids(parts, '/', '\\');
    var s := Join(parts, '/');
    assert Slashes(s) == s;
  }

  /**
   * For an entry file under the server root whose names hold no backslash, the script url is
   * the entry file's path below the root, written as a url.
   */
  lemma ScriptSrcUnderRoot(rootDir: Path, entryFile: Path)
    requires AllPlain(entryFile)
    requires IsPrefix(rootDir, entryFile)
    requires forall i :: 0 <= i < |entryFile| ==> '\\' !in entryFile[i]
    ensures ScriptSrc(rootDir, entryFile) == PathString(entryFile[|rootDir|..])
  {
    var n := CommonLength(rootDir, entryFile);
    assert n == |rootDir|;
    assert Ups(|rootDir| - n) + entryFile[n..] == entryFile[|rootDir|..];
    JoinAvoidsBackslash(entryFile[|rootDir|..]);
  }

  /** What a middleware does with a request. */
  datatype Response =
    | Next                                                  // `next()`: left to the next middleware
    | NextError                                             // `next(e)`: a load threw
    | Html(status: int, contentType: string, body: string)  // answered with the page

  /**
   * The calls the middleware makes and this model does not interpret: Vite's module loader,
   * `mergeDsl`, `resolveHtmlTemplate`, `transformIndexHtml`, the inject-script template and the
   * two placeholders.
   */
  datatype DevHost = DevHost(
    load: Path -> Module,
    merge: (Option<Json>, seq<Json>) -> Json,
    resolveHtml: (Entry, Option<HtmlConfig>, Path) -> string,
    transform: (string, string) -> string,
    inject: (string, Option<Json>) -> string,
    placeholders: Placeholders)

  /** The middleware of one entry (lines 167-224). */
  function Handle(fs: Fs, cwd: Path, rootDir: Path, defaultHtml: Option<HtmlConfig>, host: DevHost,
                  entry: Entry, req: Request): Response {
    match Gate(RouteBase(entry), req)
    case None => Next
    case Some(names) =>
      if !DslExists(fs, cwd, entry.dslPath, names) then Next
      else
        match LoadDsl(fs, cwd, host.load, host.merge, entry.dslPath.value, names)
        case LoadThrew => NextError
        case Loaded(dsl) =>
          var template := host.transform(req.url.value, host.resolveHtml(entry, defaultHtml, rootDir));
          var src := ScriptSrc(rootDir, Resolve(cwd, [entry.entryPath]));
          Html(200, "text/html", Page(template, host.placeholders, host.inject(src, dsl)))
  }

  /**
   * A middleware answers only a GET request under its base path whose DSL directory chain
   * exists, and then with status 200, `text/html` and the page built from the transformed
   * template and the inject script of the loaded payload.
   */
  lemma HandleAnswersOnlyExistingRoutes(fs: Fs, cwd: Path, rootDir: Path, defaultHtml: Option<HtmlConfig>,
                                        host: DevHost, entry: Entry, req: Request)
    requires AllPlain(cwd)
    requires Handle(fs, cwd, rootDir, defaultHtml, host, entry, req).Html?
    ensures req.verb == "GET" && req.url.Some? && StartsWith(req.url.value, RouteBase(entry))
    ensures var names := Gate(RouteBase(entry), req).value;
      && Truthy(entry.dslPath)
      && (names == [] ==> Exists(fs, Start(cwd, entry.dslPath.value)))
      && (forall i :: 0 <= i < |names| ==> Exists(fs, Prefixes(Start(cwd, entry.dslPath.value), names)[i]))
      && var r := Handle(fs, cwd, rootDir, defaultHtml, host, entry, req);
         && r.status == 200 && r.contentType == "text/html"
         && r.body == Page(host.transform(req.url.value, host.resolveHtml(entry, defaultHtml, rootDir)),
                           host.placeholders,
                           host.inject(ScriptSrc(rootDir, Resolve(cwd, [entry.entryPath])),
                                       LoadDsl(fs, cwd, host.load, host.merge, entry.dslPath.value, names).dsl))
  {
    var names := Gate(RouteBase(entry), req).value;
    DslExistsIsChainExists(fs, cwd, entry.dslPath, names);
  }

  /** A declined request is left to the next middleware, whatever the filesystem holds. */
  lemma DeclinedIsNext(fs: Fs, cwd: Path, rootDir: Path, defaultHtml: Option<HtmlConfig>, host: DevHost,
                       entry: Entry, req: Request)
    requires Declines(RouteBase(entry), req)
    ensures Handle(fs, cwd, rootDir, defaultHtml, host, entry, req) == Next
  {
  }

  /**
   * A stack of middlewares run in order, as the dev server's `connect` stack does: each one either
   * answers or calls `next()`, and `next()` past the last one is the server's own fallthrough.
   */
  function Chain(handle: Entry -> Response, entrys: seq<Entry>): Response
    decreases |entrys|
  {
    if entrys == [] then Next
    else if handle(entrys[0]).Next? then Chain(handle, entrys[1..])
    else handle(entrys[0])
  }

  /** The middlewares of the entries in registration order (the loop of lines 152-225). */
  function Serve(fs: Fs, cwd: Path, rootDir: Path, defaultHtml: Option<HtmlConfig>, host: DevHost,
                 entrys: seq<Entry>, req: Request): Response
  {
    Chain(e => Handle(fs, cwd, rootDir, defaultHtml, host, e, req), entrys)
  }

  /** A chain's answer comes from the first middleware that does not pass the request on. */
  lemma {:induction false} ChainFirstClaims(handle: Entry -> Response, entrys: seq<Entry>) returns (k: nat)
    requires !Chain(handle, entrys).Next?
    ensures k < |entrys|
    ensures Chain(handle, entrys) == handle(entrys[k])
    ensures forall j :: 0 <= j < k ==> handle(entrys[j]).Next?
    decreases |entrys|
  {
    if handle(entrys[0]).Next? {
      var rest := entrys[1..];
      var k1 := ChainFirstClaims(handle, rest);
      k := k1 + 1;
      assert entrys[k] == rest[k1];
      forall j | 1 <= j < k
        ensures handle(entrys[j]).Next?
      {
        assert entrys[j] == rest[j - 1];
      }
    } else {
      k := 0;
    }
  }

  /** A request is answered by the first entry whose middleware does not pass it on. */
  lemma ServeFirstClaims(fs: Fs, cwd: Path, rootDir: Path, defaultHtml: Option<HtmlConfig>,
                         host: DevHost, entrys: seq<Entry>, req: Request) returns (k: nat)
    requires !Serve(fs, cwd, rootDir, defaultHtml, host, entrys, req).Next?
    ensures k < |entrys|
    ensures Serve(fs, cwd, rootDir, defaultHtml, host, entrys, req) == Handle(fs, cwd, rootDir, defaultHtml, host, entrys[k], req)
    ensures forall j :: 0 <= j < k ==> Handle(fs, cwd, rootDir, defaultHtml, host, entrys[j], req).Next?
  {
    k := ChainFirstClaims(e => Handle(fs, cwd, rootDir, defaultHtml, host, e, req), entrys);
  }
}
