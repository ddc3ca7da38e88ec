/**
 * How the build plugin names each discovered DSL module and where it writes the HTML entry
 * for it (packages/builder/src/plugins/builder-plugin.ts).
 */
module BuilderEntries {
  import opened Wrappers
  import opened Strings
  import opened Paths
  import opened ZelpisTypes

  /** One discovered DSL module. */
  datatype DslEntry = DslEntry(name: string, segments: seq<string>, filePath: Path, content: Json)

  /** `path.dirname(rel)` for a relative path as fast-glob reports it (no trailing separator). */
  function DirnameOf(rel: string): string {
    var pieces := Split(rel, '/');
    if |pieces| == 1 then "."
    else
      var d := Join(pieces[..|pieces| - 1], '/');
      if d == "" then "/" else d
  }

  /** The route name of the module at `rel`: its directory, or `index` at the DSL root. */
  function RouteName(rel: string): string {
    var d := DirnameOf(rel);
    if d == "." then "index" else d
  }

  /** The route segments of the module at `rel`: its directory split on `/`, without `.`. */
  function RouteSegments(rel: string): seq<string> {
    Without(Split(DirnameOf(rel), '/'), ".")
  }

  /** The entry for the module at `rel`, whose loaded payload is `content`. */
  function DslEntryOf(cwd: Path, dslPath: string, rel: string, content: Json): DslEntry {
    DslEntry(RouteName(rel), RouteSegments(rel), Resolve(cwd, [dslPath, rel]), content)
  }

  /**
   * `getDslEntrys(dslPath)` over the relative paths the glob `**\/index.{ts,js,json}` found.
   * `loadDsl` gives a module's merged payload, or None when loading it throws; one failure
   * rejects the whole call.
   */
  function GetDslEntrys(cwd: Path, dslPath: string, globbed: seq<string>,
                        loadDsl: (string, seq<string>) -> Option<Json>): (r: Option<seq<DslEntry>>)
    ensures r.Some? <==>
      forall i :: 0 <= i < |globbed| ==> loadDsl(dslPath, RouteSegments(globbed[i])).Some?
    ensures r.Some? ==> |r.value| == |globbed|
    ensures r.Some? ==> forall i :: 0 <= i < |globbed| ==>
      && r.value[i].name == RouteName(globbed[i])
      && r.value[i].segments == RouteSegments(globbed[i])
      && r.value[i].filePath == Resolve(cwd, [dslPath, globbed[i]])
      && r.value[i].content == loadDsl(dslPath, r.value[i].segments).value
    decreases |globbed|
  {
    if globbed == [] then Some([])
    else
      var rel := globbed[0];
      match loadDsl(dslPath, RouteSegments(rel))
      case None => None
      case Some(content) =>
        match GetDslEntrys(cwd, dslPath, globbed[1..], loadDsl)
        case None => None
        case Some(rest) =>
          var entries := [DslEntryOf(cwd, dslPath, rel, content)] + rest;
          assert forall i :: 0 < i < |entries| ==> entries[i] == rest[i - 1] && globbed[i] == globbed[1..][i - 1];
          Some(entries)
  }

  /** A relative path as the glob reports it: ordinary names separated by single slashes. */
  predicate GlobPath(rel: string) {
    AllPlain(Split(rel, '/'))
  }

  /**
   * A module directly in the DSL root is the route `index` with no segments; any other module's
   * segments are the directories above it, and its name spells them joined by `/`.
   */
  lemma RouteOfGlobPath(rel: string)
    requires GlobPath(rel)
    ensures var pieces := Split(rel, '/');
      && RouteSegments(rel) == pieces[..|pieces| - 1]
      && (|pieces| == 1 ==> RouteName(rel) == "index")
      && (|pieces| > 1 ==> RouteName(rel) == Join(RouteSegments(rel), '/'))
  {
    var pieces := Split(rel, '/');
    if |pieces| == 1 {
      assert Split(".", '/') == ["."];
      assert Without(["."], ".") == [];
    } else {
      NestedDirname(rel);
      WithoutAbsent(pieces[..|pieces| - 1], ".");
    }
  }

  /** Below the DSL root, the directory of a module is its directories joined by `/`. */
  lemma NestedDirname(rel: string)
    requires GlobPath(rel) && |Split(rel, '/')| > 1
    ensures var dirs := Split(rel, '/')[..|Split(rel, '/')| - 1];
      DirnameOf(rel) == Join(dirs, '/') && Split(DirnameOf(rel), '/') == dirs
  {
    var pieces := Split(rel, '/');
    var dirs := pieces[..|pieces| - 1];
    var d := Join(dirs, '/');
    SplitJoin(dirs, '/');
    assert Split("", '/') == [""];
    assert "."[1..] == "" && ['.'] + "" == "." && [""][1..] == [];
    assert Split(".", '/') == ["."];
    assert Plain(dirs[0]);
    assert dirs != [""] && dirs != ["."];
    assert d != "" && d != ".";
  }

  /** `item.basePath.replace(/^\//, '')`. */
  function BaseName(basePath: string): string {
    StripLeadingSlash(basePath)
  }

  /**
   * The generated file for a DSL module (lines 115-117): the base name and the segments below
   * the temp directory, the last of them popped as the file name (`index` when it is empty).
   */
  function OutputPath(tempDir: Path, basePath: string, segments: seq<string>): Path {
    ResolveFrom(tempDir, OutputArgs(basePath, segments))
  }

  /** The bundler input key (line 156): `<name>/<dslName>`, or `dslName` when the name is empty. */
  function InputKey(basePath: string, dslName: string): string {
    var name := BaseName(basePath);
    (if name != "" then name + "/" else "") + dslName
  }

  /** The route a generated file stands for: the base name, when there is one, then the segments. */
  function Route(basePath: string, segments: seq<string>): seq<string> {
    (if BaseName(basePath) == "" then [] else [BaseName(basePath)]) + segments
  }

  /** The file a route maps to: `index.html` for the empty route, else its last name with `.html`. */
  function HtmlFile(route: seq<string>): Path {
    if route == [] then ["index.html"]
    else route[..|route| - 1] + [route[|route| - 1] + ".html"]
  }

  /** A base name that `path.resolve` keeps as one segment, or none at all. */
  predicate PlainBase(basePath: string) {
    BaseName(basePath) == "" || Plain(BaseName(basePath))
  }

  lemma PlainHtml(name: string)
    requires name != "" && '/' !in name
    ensures Plain(name + ".html")
  {
    assert (name + ".html")[|name|..] == ".html";
  }

  /** One empty or plain argument, resolved from `acc`. */
  lemma WalkPlainArg(acc: Path, a: string)
    requires a == "" || Plain(a)
    ensures !IsAbsolute(a)
    ensures Walk(acc, Split(a, '/')) == acc + NonEmpty([a])
  {
    if a == "" {
      assert Split(a, '/') == [""];
      assert Walk(acc, [""]) == Walk(Step(acc, ""), [""][1..]);
      assert [""][1..] == [];
      assert NonEmpty([a]) == [];
    } else {
      SplitNoSeparator(a, '/');
      assert Walk(acc, [a]) == Walk(acc + [a], [a][1..]);
      assert [a][1..] == [];
      NonEmptyOfNonEmpty([a]);
    }
  }

  /** Resolving empty or plain arguments appends the plain ones. */
  lemma {:induction false} ResolvePlainArgs(acc: Path, args: seq<string>)
    requires forall i :: 0 <= i < |args| ==> args[i] == "" || Plain(args[i])
    ensures ResolveFrom(acc, args) == acc + NonEmpty(args)
    decreases |args|
  {
    if args != [] {
      var a := args[0];
      WalkPlainArg(acc, a);
      var w := Walk(acc, Split(a, '/'));
      ResolvePlainArgs(w, args[1..]);
      assert ResolveFrom(acc, args) == ResolveFrom(w, args[1..]);
      if a == "" {
        assert NonEmpty(args) == NonEmpty(args[1..]);
        assert NonEmpty([a]) == [];
      } else {
        assert NonEmpty(args) == [a] + NonEmpty(args[1..]);
        assert NonEmpty([a]) == [a];
      }
    }
  }

  /** The HTML file of a route that has a head, then a non-empty remainder. */
  lemma HtmlFileOfAppend(head: seq<string>, segments: seq<string>)
    requires segments != []
    ensures HtmlFile(head + segments) ==
      head + segments[..|segments| - 1] + [segments[|segments| - 1] + ".html"]
  {
    var route := head + segments;
    assert route[..|route| - 1] == head + segments[..|segments| - 1];
    assert route[|route| - 1] == segments[|segments| - 1];
  }

  /** The arguments `path.resolve` receives for a module: the base name, then the segments. */
  function OutputArgs(basePath: string, segments: seq<string>): seq<string> {
    var all := [BaseName(basePath)] + segments;
    var last := all[|all| - 1];
    var filename := if last == "" then "index" else last;
    all[..|all| - 1] + [filename + ".html"]
  }

  lemma OutputArgsPlain(basePath: string, segments: seq<string>)
    requires PlainBase(basePath) && AllPlain(segments)
    ensures forall i :: 0 <= i < |OutputArgs(basePath, segments)| ==>
      OutputArgs(basePath, segments)[i] == "" || Plain(OutputArgs(basePath, segments)[i])
    ensures NonEmpty(OutputArgs(basePath, segments)) == HtmlFile(Route(basePath, segments))
  {
    var name := BaseName(basePath);
    var head := if name == "" then [] else [name];
    var args := OutputArgs(basePath, segments);
    assert Route(basePath, segments) == head + segments;
    if segments == [] {
      var filename := if name == "" then "index" else name;
      assert args == [filename + ".html"];
      PlainHtml(filename);
      NonEmptyOfNonEmpty(args);
      assert "index" + ".html" == "index.html";
    } else {
      var n := |segments|;
      var tail := segments[..n - 1] + [segments[n - 1] + ".html"];
      assert args == [name] + tail;
      PlainHtml(segments[n - 1]);
      assert AllPlain(tail);
      NonEmptyOfNonEmpty(tail);
      assert args[1..] == tail;
      HtmlFileOfAppend(head, segments);
    }
  }

  /** For plain names the output file is the route's HTML file below the temp directory. */
  lemma OutputPathOfPlainRoute(tempDir: Path, basePath: string, segments: seq<string>)
    requires PlainBase(basePath) && AllPlain(segments)
    ensures OutputPath(tempDir, basePath, segments) == tempDir + HtmlFile(Route(basePath, segments))
  {
    OutputArgsPlain(basePath, segments);
    ResolvePlainArgs(tempDir, OutputArgs(basePath, segments));
  }

  /** `/docs` with the segments `["guide"]` writes `docs/guide.html`. */
  lemma OutputPathNested(tempDir: Path)
    ensures OutputPath(tempDir, "/docs", ["guide"]) == tempDir + ["docs", "guide.html"]
  {
    assert BaseName("/docs") == "docs";
    assert Plain("docs") && Plain("guide");
    assert AllPlain(["guide"]);
    assert "guide" + ".html" == "guide.html";
    OutputPathOfPlainRoute(tempDir, "/docs", ["guide"]);
    assert Route("/docs", ["guide"]) == ["docs", "guide"];
  }

  /** The root base path with the root DSL module writes `index.html`. */
  lemma OutputPathRoot(tempDir: Path)
    ensures OutputPath(tempDir, "/", []) == tempDir + ["index.html"]
  {
    assert BaseName("/") == "";
    assert "index" + ".html" == "index.html";
    OutputPathOfPlainRoute(tempDir, "/", []);
    assert Route("/", []) == [];
  }

  /** `/docs` with the root DSL module writes `docs.html`, next to the `docs` directory. */
  lemma OutputPathBaseOnly(tempDir: Path)
    ensures OutputPath(tempDir, "/docs", []) == tempDir + ["docs.html"]
  {
    assert BaseName("/docs") == "docs";
    assert Plain("docs");
    assert "docs" + ".html" == "docs.html";
    OutputPathOfPlainRoute(tempDir, "/docs", []);
    assert Route("/docs", []) == ["docs"];
  }

  lemma AppendCancel(a: string, b: string, x: string)
    requires a + x == b + x
    ensures a == b
  {
    assert |a| == |b|;
    assert a == (a + x)[..|a|];
  }

  /**
   * Two plain routes share an HTML file exactly when they are equal or are the empty route and
   * the route `index`: a DSL directory named `index` collides with the DSL root.
   */
  lemma HtmlFileCollision(r1: seq<string>, r2: seq<string>)
    requires AllPlain(r1) && AllPlain(r2)
    ensures HtmlFile(r1) == HtmlFile(r2) <==>
      r1 == r2 || (r1 == [] && r2 == ["index"]) || (r1 == ["index"] && r2 == [])
  {
    assert "index" + ".html" == "index.html";
    if HtmlFile(r1) == HtmlFile(r2) {
      var h := HtmlFile(r1);
      if r1 != [] && r2 != [] {
        var n := |r1|;
        assert |r2| == n;
        forall k | 0 <= k < n - 1 ensures r1[k] == r2[k] {
          assert h[k] == r1[k] && h[k] == r2[k];
        }
        assert h[n - 1] == r1[n - 1] + ".html" == r2[n - 1] + ".html";
        AppendCancel(r1[n - 1], r2[n - 1], ".html");
        assert r1 == r2;
      } else if r1 == [] && r2 != [] {
        assert |r2| == 1;
        assert h[0] == r2[0] + ".html";
        AppendCancel(r2[0], "index", ".html");
      } else if r1 != [] {
        assert |r1| == 1;
        assert h[0] == r1[0] + ".html";
        AppendCancel(r1[0], "index", ".html");
      }
    }
  }

  /** Two DSL modules, under any entries, get the same output file only as `HtmlFileCollision` says. */
  lemma OutputPathsCollide(tempDir: Path, b1: string, s1: seq<string>, b2: string, s2: seq<string>)
    requires PlainBase(b1) && AllPlain(s1) && PlainBase(b2) && AllPlain(s2)
    ensures var r1, r2 := Route(b1, s1), Route(b2, s2);
      OutputPath(tempDir, b1, s1) == OutputPath(tempDir, b2, s2) <==>
        r1 == r2 || (r1 == [] && r2 == ["index"]) || (r1 == ["index"] && r2 == [])
  {
    OutputPathOfPlainRoute(tempDir, b1, s1);
    OutputPathOfPlainRoute(tempDir, b2, s2);
    HtmlFileCollision(Route(b1, s1), Route(b2, s2));
    var p1, p2 := HtmlFile(Route(b1, s1)), HtmlFile(Route(b2, s2));
    assert (tempDir + p1)[|tempDir|..] == p1;
    assert (tempDir + p2)[|tempDir|..] == p2;
  }

  lemma {:induction false} JoinLastSuffix(route: seq<string>, x: string)
    requires route != []
    ensures Join(route[..|route| - 1] + [route[|route| - 1] + x], '/') == Join(route, '/') + x
    decreases |route|
  {
    if |route| > 1 {
      var rest := route[1..];
      JoinLastSuffix(rest, x);
      assert (route[..|route| - 1] + [route[|route| - 1] + x])[1..] == rest[..|rest| - 1] + [rest[|rest| - 1] + x];
    }
  }

  /** The segments of a glob path are plain names. */
  lemma GlobSegmentsPlain(rel: string)
    requires GlobPath(rel)
    ensures AllPlain(RouteSegments(rel))
  {
    RouteOfGlobPath(rel);
    var segments := RouteSegments(rel);
    var pieces := Split(rel, '/');
    forall i | 0 <= i < |segments| ensures Plain(segments[i]) {
      assert segments[i] == pieces[i];
    }
  }

  /** The root module: key `index` under an entry without a base name, else `n/index` for `n.html`. */
  lemma RootKeyAndFile(basePath: string)
    ensures var file := Join(HtmlFile(Route(basePath, [])), '/');
      var key := InputKey(basePath, "index");
      var name := BaseName(basePath);
      && (name == "" ==> key + ".html" == file)
      && (name != "" ==> key == name + "/index" && file == name + ".html")
  {
    var name := BaseName(basePath);
    if name != "" {
      assert Route(basePath, []) == [name];
      assert HtmlFile([name]) == [name + ".html"];
    } else {
      assert Route(basePath, []) == [];
      assert "index" + ".html" == "index.html";
    }
  }

  /** Below the DSL root the key followed by `.html` spells the route's HTML file. */
  lemma NestedKeyNamesFile(basePath: string, segments: seq<string>)
    requires segments != []
    ensures InputKey(basePath, Join(segments, '/')) + ".html" == Join(HtmlFile(Route(basePath, segments)), '/')
  {
    var route := Route(basePath, segments);
    JoinLastSuffix(route, ".html");
    var name := BaseName(basePath);
    if name != "" {
      assert route == [name] + segments;
      assert Join(route, '/') == name + "/" + Join(segments, '/');
    } else {
      assert route == segments;
    }
  }

  /**
   * The bundler key of a module against the file generated for it. Below the DSL root, and at
   * the root of an entry without a base name, the key followed by `.html` is the file's path
   * relative to the temp directory. The root module of an entry with base name `n` has the key
   * `n/index` but writes `n.html`.
   */
  lemma InputKeyNamesOutputFile(tempDir: Path, basePath: string, rel: string)
    requires PlainBase(basePath) && GlobPath(rel)
    ensures var segments := RouteSegments(rel);
      var out := OutputPath(tempDir, basePath, segments);
      var key := InputKey(basePath, RouteName(rel));
      var name := BaseName(basePath);
      && IsPrefix(tempDir, out)
      && (|Split(rel, '/')| > 1 || name == "" ==> key + ".html" == Join(out[|tempDir|..], '/'))
      && (|Split(rel, '/')| == 1 && name != "" ==>
            key == name + "/index" && Join(out[|tempDir|..], '/') == name + ".html")
  {
    var segments := RouteSegments(rel);
    var file := HtmlFile(Route(basePath, segments));
    assert OutputPath(tempDir, basePath, segments) == tempDir + file by {
      GlobSegmentsPlain(rel);
      OutputPathOfPlainRoute(tempDir, basePath, segments);
    }
    assert (tempDir + file)[|tempDir|..] == file;
    if |Split(rel, '/')| == 1 {
      assert segments == [] && RouteName(rel) == "index" by {
        RouteOfGlobPath(rel);
      }
      RootKeyAndFile(basePath);
    } else {
      assert segments != [] && RouteName(rel) == Join(segments, '/') by {
        RouteOfGlobPath(rel);
      }
      NestedKeyNamesFile(basePath, segments);
    }
  }

  /**
   * The module at the DSL root and the module in a directory named `index` are both named
   * `index`, so under one entry they get the same bundler key. Their output files differ
   * exactly when the entry has a base name, and then only one of the two pages is bundled.
   */
  lemma IndexKeyCollision(tempDir: Path, basePath: string, root: string, nested: string)
    requires PlainBase(basePath) && GlobPath(root) && GlobPath(nested)
    requires |Split(root, '/')| == 1 && RouteSegments(nested) == ["index"]
    ensures InputKey(basePath, RouteName(root)) == InputKey(basePath, RouteName(nested))
    ensures OutputPath(tempDir, basePath, RouteSegments(root)) != OutputPath(tempDir, basePath, RouteSegments(nested))
            <==> BaseName(basePath) != ""
  {
    RouteOfGlobPath(root);
    RouteOfGlobPath(nested);
    assert RouteName(nested) == Join(["index"], '/') == "index";
    assert Plain("index");
    assert AllPlain(["index"]);
    OutputPathsCollide(tempDir, basePath, [], basePath, ["index"]);
    var name := BaseName(basePath);
    if name != "" {
      assert Route(basePath, []) == [name];
      assert Route(basePath, ["index"]) == [name, "index"];
    } else {
      assert Route(basePath, []) == [];
      assert Route(basePath, ["index"]) == ["index"];
    }
  }

  /** The key the output file calls for: the file's path below the temp directory without `.html`. */
  function InputKeyFixed(basePath: string, segments: seq<string>): string {
    var route := Route(basePath, segments);
    if route == [] then "index" else Join(route, '/')
  }

  /** The pieces of a plain route's HTML file hold no separator. */
  lemma HtmlFileNoSeparator(route: seq<string>)
    requires AllPlain(route)
    ensures |HtmlFile(route)| >= 1
    ensures forall i :: 0 <= i < |HtmlFile(route)| ==> '/' !in HtmlFile(route)[i]
  {
    var h := HtmlFile(route);
    if route != [] {
      var last := route[|route| - 1];
      PlainHtml(last);
      forall i | 0 <= i < |h| ensures '/' !in h[i] {
        if i < |route| - 1 {
          assert h[i] == route[i];
        } else {
          assert h[i] == last + ".html";
        }
      }
    } else {
      assert '/' !in "index.html";
    }
  }

  /** The corrected key followed by `.html` is the generated file's path below the temp directory. */
  lemma InputKeyFixedNamesOutputFile(tempDir: Path, basePath: string, segments: seq<string>)
    requires PlainBase(basePath) && AllPlain(segments)
    ensures var out := OutputPath(tempDir, basePath, segments);
      && IsPrefix(tempDir, out)
      && InputKeyFixed(basePath, segments) + ".html" == Join(out[|tempDir|..], '/')
  {
    OutputPathOfPlainRoute(tempDir, basePath, segments);
    var route := Route(basePath, segments);
    var out := OutputPath(tempDir, basePath, segments);
    assert out[|tempDir|..] == HtmlFile(route);
    if route == [] {
      assert "index" + ".html" == "index.html";
    } else {
      JoinLastSuffix(route, ".html");
    }
  }

  /** With the corrected key, two modules share a key exactly when they share an output file. */
  lemma InputKeyFixedIdentifiesFile(tempDir: Path, b1: string, s1: seq<string>, b2: string, s2: seq<string>)
    requires PlainBase(b1) && AllPlain(s1) && PlainBase(b2) && AllPlain(s2)
    ensures InputKeyFixed(b1, s1) == InputKeyFixed(b2, s2) <==>
            OutputPath(tempDir, b1, s1) == OutputPath(tempDir, b2, s2)
  {
    var o1, o2 := OutputPath(tempDir, b1, s1), OutputPath(tempDir, b2, s2);
    InputKeyFixedNamesOutputFile(tempDir, b1, s1);
    InputKeyFixedNamesOutputFile(tempDir, b2, s2);
    OutputPathOfPlainRoute(tempDir, b1, s1);
    OutputPathOfPlainRoute(tempDir, b2, s2);
    var h1, h2 := HtmlFile(Route(b1, s1)), HtmlFile(Route(b2, s2));
    assert o1[|tempDir|..] == h1 && o2[|tempDir|..] == h2;
    if InputKeyFixed(b1, s1) == InputKeyFixed(b2, s2) {
      assert AllPlain(Route(b1, s1)) && AllPlain(Route(b2, s2));
      HtmlFileNoSeparator(Route(b1, s1));
      HtmlFileNoSeparator(Route(b2, s2));
      SplitJoin(h1, '/');
      SplitJoin(h2, '/');
      assert h1 == h2;
    }
    if o1 == o2 {
      AppendCancel(InputKeyFixed(b1, s1), InputKeyFixed(b2, s2), ".html");
    }
  }

  /** One bundler input: a key and the generated file it names. */
  type Input = (string, Path)

  /** `input[key] = entry` for each input in turn (line 156): a later key overwrites an earlier one. */
  function Inserted(input: map<string, Path>, inputs: seq<Input>): map<string, Path>
    decreases |inputs|
  {
    if inputs == [] then input else Inserted(input[inputs[0].0 := inputs[0].1], inputs[1..])
  }

  /** No later input has the key of input `i`. */
  predicate LastWithKey(inputs: seq<Input>, i: int)
    requires 0 <= i < |inputs|
  {
    forall j :: i < j < |inputs| ==> inputs[j].0 != inputs[i].0
  }

  lemma {:induction false} InsertedAppend(input: map<string, Path>, a: seq<Input>, b: seq<Input>)
    ensures Inserted(input, a + b) == Inserted(Inserted(input, a), b)
    decreases |a|
  {
    if a == [] {
      assert a + b == b;
    } else {
      assert (a + b)[1..] == a[1..] + b;
      InsertedAppend(input[a[0].0 := a[0].1], a[1..], b);
    }
  }

  /**
   * The object the inputs build: its keys are the old ones and the inputs' keys, each input key
   * holds the file of the last input that carries it, and any other key keeps its old file.
   */
  lemma {:induction false} InsertedLastWins(input: map<string, Path>, inputs: seq<Input>)
    ensures forall k :: k in Inserted(input, inputs) <==>
      k in input || exists i :: 0 <= i < |inputs| && inputs[i].0 == k
    ensures forall i :: 0 <= i < |inputs| && LastWithKey(inputs, i) ==>
      Inserted(input, inputs)[inputs[i].0] == inputs[i].1
    ensures forall k :: k in input && (forall i :: 0 <= i < |inputs| ==> inputs[i].0 != k) ==>
      Inserted(input, inputs)[k] == input[k]
    decreases |inputs|
  {
    if inputs != [] {
      var rest := inputs[1..];
      var next := input[inputs[0].0 := inputs[0].1];
      InsertedLastWins(next, rest);
      var r := Inserted(input, inputs);
      assert r == Inserted(next, rest);
      forall k ensures k in r <==> k in input || exists i :: 0 <= i < |inputs| && inputs[i].0 == k {
        if exists i :: 0 <= i < |rest| && rest[i].0 == k {
          var i :| 0 <= i < |rest| && rest[i].0 == k;
          assert inputs[i + 1].0 == k;
        }
        if exists i :: 0 <= i < |inputs| && inputs[i].0 == k {
          var i :| 0 <= i < |inputs| && inputs[i].0 == k;
          if i > 0 {
            assert rest[i - 1].0 == k;
          }
        }
      }
      forall i | 0 <= i < |inputs| && LastWithKey(inputs, i)
        ensures r[inputs[i].0] == inputs[i].1
      {
        if i > 0 {
          assert inputs[i] == rest[i - 1];
          assert LastWithKey(rest, i - 1) by {
            forall j | i - 1 < j < |rest| ensures rest[j].0 != rest[i - 1].0 {
              assert rest[j] == inputs[j + 1];
            }
          }
        } else {
          forall j | 0 <= j < |rest| ensures rest[j].0 != inputs[0].0 {
            assert rest[j] == inputs[j + 1];
          }
        }
      }
      forall k | k in input && (forall i :: 0 <= i < |inputs| ==> inputs[i].0 != k)
        ensures r[k] == input[k]
      {
        assert inputs[0].0 != k;
        forall i | 0 <= i < |rest| ensures rest[i].0 != k {
          assert rest[i] == inputs[i + 1];
        }
      }
    }
  }

  /** Inputs whose key determines their file lose no file to an overwritten key. */
  lemma {:induction false} InsertedHoldsEveryFile(input: map<string, Path>, inputs: seq<Input>)
    requires forall i, j :: 0 <= i < |inputs| && 0 <= j < |inputs| && inputs[i].0 == inputs[j].0 ==>
      inputs[i].1 == inputs[j].1
    ensures forall i :: 0 <= i < |inputs| ==> inputs[i].1 in Inserted(input, inputs).Values
    decreases |inputs|
  {
    if inputs != [] {
      var rest := inputs[1..];
      var next := input[inputs[0].0 := inputs[0].1];
      InsertedHoldsEveryFile(next, rest);
      var r := Inserted(input, inputs);
      assert r == Inserted(next, rest);
      forall i | 0 <= i < |inputs| ensures inputs[i].1 in r.Values {
        if i > 0 {
          assert inputs[i] == rest[i - 1];
        } else if exists j :: 0 <= j < |rest| && rest[j].0 == inputs[0].0 {
          var j :| 0 <= j < |rest| && rest[j].0 == inputs[0].0;
          assert rest[j] == inputs[j + 1];
        } else {
          InsertedLastWins(next, rest);
          assert r[inputs[0].0] == inputs[0].1;
        }
      }
    }
  }

  /** The bundler inputs of the modules `(basePath, segments)` under the corrected key. */
  function InputsFixed(tempDir: Path, modules: seq<(string, seq<string>)>): (r: seq<Input>)
    ensures |r| == |modules|
    ensures forall i :: 0 <= i < |modules| ==>
      r[i] == (InputKeyFixed(modules[i].0, modules[i].1), OutputPath(tempDir, modules[i].0, modules[i].1))
    decreases |modules|
  {
    if modules == [] then []
    else [(InputKeyFixed(modules[0].0, modules[0].1), OutputPath(tempDir, modules[0].0, modules[0].1))]
         + InputsFixed(tempDir, modules[1..])
  }

  /** Under the corrected key every generated page is a bundler input. */
  lemma FixedKeysBundleEveryPage(tempDir: Path, modules: seq<(string, seq<string>)>)
    requires forall i :: 0 <= i < |modules| ==> PlainBase(modules[i].0) && AllPlain(modules[i].1)
    ensures forall i :: 0 <= i < |modules| ==>
      OutputPath(tempDir, modules[i].0, modules[i].1) in Inserted(map[], InputsFixed(tempDir, modules)).Values
  {
    var inputs := InputsFixed(tempDir, modules);
    forall i, j | 0 <= i < |inputs| && 0 <= j < |inputs| && inputs[i].0 == inputs[j].0
      ensures inputs[i].1 == inputs[j].1
    {
      InputKeyFixedIdentifiesFile(tempDir, modules[i].0, modules[i].1, modules[j].0, modules[j].1);
    }
    InsertedHoldsEveryFile(map[], inputs);
  }

  /**
   * An entry with base name `docs` whose DSL has a root module and a module in `index/`: as
   * written the two share the key `docs/index`, so the map keeps only the second page and
   * `docs.html` is never bundled; under the corrected key both pages are inputs.
   */
  lemma RootPageNotBundled(tempDir: Path, basePath: string, root: string, nested: string)
    requires PlainBase(basePath) && BaseName(basePath) != ""
    requires GlobPath(root) && GlobPath(nested)
    requires |Split(root, '/')| == 1 && RouteSegments(nested) == ["index"]
    ensures var outRoot := OutputPath(tempDir, basePath, RouteSegments(root));
      var outNested := OutputPath(tempDir, basePath, RouteSegments(nested));
      var asWritten := Inserted(map[], [(InputKey(basePath, RouteName(root)), outRoot),
                                        (InputKey(basePath, RouteName(nested)), outNested)]);
      var fixed := Inserted(map[], InputsFixed(tempDir, [(basePath, RouteSegments(root)), (basePath, RouteSegments(nested))]));
      && outRoot !in asWritten.Values
      && outRoot in fixed.Values && outNested in fixed.Values
  {
    IndexKeyCollision(tempDir, basePath, root, nested);
    var outRoot := OutputPath(tempDir, basePath, RouteSegments(root));
    var outNested := OutputPath(tempDir, basePath, RouteSegments(nested));
    var key := InputKey(basePath, RouteName(root));
    var inputs := [(key, outRoot), (InputKey(basePath, RouteName(nested)), outNested)];
    assert inputs[1..] == [inputs[1]] && inputs[1..][1..] == [];
    assert Inserted(map[], inputs) == Inserted(map[key := outRoot], inputs[1..]);
    assert Inserted(map[key := outRoot], inputs[1..]) == map[key := outRoot][key := outNested];
    assert map[key := outRoot][key := outNested] == map[key := outNested];
    RouteOfGlobPath(root);
    assert RouteSegments(root) == [];
    assert Plain("index");
    var modules := [(basePath, RouteSegments(root)), (basePath, RouteSegments(nested))];
    FixedKeysBundleEveryPage(tempDir, modules);
    assert modules[0].1 == RouteSegments(root) && modules[1].1 == RouteSegments(nested);
  }
}
