/**
 * POSIX paths as `node:path` treats them. An absolute path is the sequence of its segments
 * below the root: `/a/b` is `["a", "b"]` and `/` is `[]`.
 */
module Paths {
  import opened Strings

  type Path = seq<string>

  /** A segment that `path.resolve` keeps as it is: not empty, not `.` or `..`, no separator. */
  predicate Plain(seg: string) {
    seg != "" && seg != "." && seg != ".." && '/' !in seg
  }

  predicate AllPlain(p: seq<string>) {
    forall i :: 0 <= i < |p| ==> Plain(p[i])
  }

  predicate IsAbsolute(s: string) {
    |s| > 0 && s[0] == '/'
  }

  /** One piece of an argument applied to the path resolved so far. */
  function Step(acc: Path, piece: string): Path {
    if piece == "" || piece == "." then acc
    else if piece == ".." then (if acc == [] then [] else acc[..|acc| - 1])
    else acc + [piece]
  }

  /** The pieces of one argument applied in order. */
  function Walk(acc: Path, pieces: seq<string>): Path
    decreases |pieces|
  {
    if pieces == [] then acc else Walk(Step(acc, pieces[0]), pieces[1..])
  }

  /** `path.resolve(...args)` continuing from the path `acc` resolved so far. */
  function ResolveFrom(acc: Path, args: seq<string>): Path
    decreases |args|
  {
    if args == [] then acc
    else
      var start := if IsAbsolute(args[0]) then [] else acc;
      ResolveFrom(Walk(start, Split(args[0], '/')), args[1..])
  }

  /** `path.resolve(...args)` in a process whose working directory is `cwd`. */
  function Resolve(cwd: Path, args: seq<string>): Path {
    ResolveFrom(cwd, args)
  }

  /** `path.dirname` of an absolute path; the root is its own parent. */
  function Dirname(p: Path): Path {
    if p == [] then [] else p[..|p| - 1]
  }

  /** The string form of an absolute path. */
  function PathString(p: Path): string {
    "/" + Join(p, '/')
  }

  /** `q` lies at or below `p`. */
  predicate IsPrefix(p: Path, q: Path) {
    |p| <= |q| && q[..|p|] == p
  }

  /** Plain pieces are appended as they are. */
  lemma {:induction false} WalkPlain(acc: Path, pieces: seq<string>)
    requires AllPlain(pieces)
    ensures Walk(acc, pieces) == acc + pieces
    decreases |pieces|
  {
    if pieces != [] {
      WalkPlain(acc + [pieces[0]], pieces[1..]);
      assert acc + [pieces[0]] + pieces[1..] == acc + pieces;
    }
  }

  /** Resolving keeps a plain path plain: every segment it adds is a separator-free ordinary name. */
  lemma {:induction false} WalkKeepsPlain(acc: Path, pieces: seq<string>)
    requires AllPlain(acc)
    requires forall i :: 0 <= i < |pieces| ==> '/' !in pieces[i]
    ensures AllPlain(Walk(acc, pieces))
    decreases |pieces|
  {
    if pieces != [] {
      var next := Step(acc, pieces[0]);
      assert AllPlain(next);
      WalkKeepsPlain(next, pieces[1..]);
    }
  }

  lemma {:induction false} ResolveKeepsPlain(acc: Path, args: seq<string>)
    requires AllPlain(acc)
    ensures AllPlain(ResolveFrom(acc, args))
    decreases |args|
  {
    if args != [] {
      var start := if IsAbsolute(args[0]) then [] else acc;
      WalkKeepsPlain(start, Split(args[0], '/'));
      ResolveKeepsPlain(Walk(start, Split(args[0], '/')), args[1..]);
    }
  }

  /** The string form of a plain path resolves back to that path, wherever it is resolved from. */
  lemma PathStringResolves(acc: Path, p: Path)
    requires AllPlain(p)
    ensures ResolveFrom(acc, [PathString(p)]) == p
  {
    var s := PathString(p);
    var rest := Split(Join(p, '/'), '/');
    assert IsAbsolute(s);
    assert s == [] + ['/'] + Join(p, '/');
    assert Split(s, '/') == [""] + rest;
    assert Walk([], Split(s, '/')) == Walk([], rest);
    if p == [] {
      assert rest == [""];
      assert Walk([], rest) == Walk([], []);
    } else {
      SplitJoin(p, '/');
      WalkPlain([], p);
    }
    assert ResolveFrom(acc, [s]) == ResolveFrom(Walk([], Split(s, '/')), []);
  }

  lemma {:induction false} JoinAppend(p: seq<string>, x: string, c: char)
    requires p != []
    ensures Join(p + [x], c) == Join(p, c) + [c] + x
    decreases |p|
  {
    if |p| > 1 {
      JoinAppend(p[1..], x, c);
      assert (p + [x])[1..] == p[1..] + [x];
    } else {
      assert (p + [x])[1..] == [x];
    }
  }

  /** The length of the string form, the sort key of `(a, b) => b.length - a.length`. */
  function PathLength(p: Path): nat {
    |PathString(p)|
  }

  /** The string form of an entry is longer than that of its directory. */
  lemma ChildIsLonger(d: Path, x: string)
    requires d != [] || x != ""
    ensures PathLength(d + [x]) > PathLength(d)
  {
    if d != [] {
      JoinAppend(d, x, '/');
    } else {
      assert d + [x] == [x];
    }
  }
}
