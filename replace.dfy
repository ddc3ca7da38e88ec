/**
 * `String.prototype.replace` with a string pattern: only the first occurrence is replaced, and
 * the replacement text is scanned for the `$` patterns of GetSubstitution (ECMA-262 22.1.3.19.1).
 */
module JsReplace {
  import opened Wrappers

  predicate OccursAt(s: string, pat: string, i: int) {
    0 <= i && i + |pat| <= |s| && s[i..i + |pat|] == pat
  }

  /** `s.indexOf(pat)` from position `i` on. */
  function IndexFrom(s: string, pat: string, i: nat): (r: Option<nat>)
    ensures r.Some? ==> i <= r.value && OccursAt(s, pat, r.value)
    ensures r.Some? ==> forall j :: i <= j < r.value ==> !OccursAt(s, pat, j)
    ensures r.None? ==> forall j :: i <= j ==> !OccursAt(s, pat, j)
    decreases |s| - i
  {
    if i + |pat| > |s| then None
    else if s[i..i + |pat|] == pat then Some(i)
    else IndexFrom(s, pat, i + 1)
  }

  /** `s.indexOf(pat)`: the first occurrence, if any. */
  function IndexOf(s: string, pat: string): Option<nat> {
    IndexFrom(s, pat, 0)
  }

  /**
   * The replacement text after its `$` patterns are expanded: `$$` is one `$`, `$&` the matched
   * text, `` $` `` the text before the match and `$'` the text after it. With a string pattern
   * there are no capture groups, so `$1` or `$<` stays as written.
   */
  function Expand(repl: string, matched: string, before: string, after: string): string
    decreases |repl|
  {
    if repl == [] then []
    else if repl[0] == '$' && |repl| >= 2 && repl[1] in "$&`'" then
      var piece := if repl[1] == '$' then "$" else if repl[1] == '&' then matched
                   else if repl[1] == '`' then before else after;
      piece + Expand(repl[2..], matched, before, after)
    else [repl[0]] + Expand(repl[1..], matched, before, after)
  }

  /** `s.replace(pat, repl)` as JavaScript evaluates it. */
  function Replace(s: string, pat: string, repl: string): string {
    match IndexOf(s, pat)
    case None => s
    case Some(i) => s[..i] + Expand(repl, pat, s[..i], s[i + |pat|..]) + s[i + |pat|..]
  }

  /** The first occurrence of `pat` replaced by `repl` taken literally. */
  function ReplaceLiteral(s: string, pat: string, repl: string): string {
    match IndexOf(s, pat)
    case None => s
    case Some(i) => s[..i] + repl + s[i + |pat|..]
  }

  /** A `$` pattern starts at position `i` of `s`. */
  predicate PatternAt(s: string, i: int)
    requires 0 <= i < |s| - 1
  {
    s[i] == '$' && s[i + 1] in "$&`'"
  }

  /** No `$` is followed by one of the pattern characters, so `Expand` has nothing to expand. */
  predicate NoDollarPattern(s: string) {
    forall i :: 0 <= i < |s| - 1 ==> !PatternAt(s, i)
  }

  /** A replacement without `$` patterns, such as one holding `$zelpis`, is inserted as it is. */
  lemma {:induction false} ExpandWithoutPattern(repl: string, matched: string, before: string, after: string)
    requires NoDollarPattern(repl)
    ensures Expand(repl, matched, before, after) == repl
    decreases |repl|
  {
    if repl != [] {
      assert |repl| >= 2 ==> !PatternAt(repl, 0);
      assert NoDollarPattern(repl[1..]) by {
        forall i | 0 <= i < |repl[1..]| - 1
          ensures !PatternAt(repl[1..], i)
        {
          assert !PatternAt(repl, i + 1);
        }
      }
      ExpandWithoutPattern(repl[1..], matched, before, after);
      assert repl == [repl[0]] + repl[1..];
    }
  }

  /** Without `$` patterns in the replacement, JavaScript's replace is the literal substitution. */
  lemma ReplaceWithoutPatternIsLiteral(s: string, pat: string, repl: string)
    requires NoDollarPattern(repl)
    ensures Replace(s, pat, repl) == ReplaceLiteral(s, pat, repl)
  {
    match IndexOf(s, pat)
    case None =>
    case Some(i) => ExpandWithoutPattern(repl, pat, s[..i], s[i + |pat|..]);
  }

  /** How many characters of `repl` its first expansion step consumes. */
  function StepLength(repl: string): nat
    requires repl != []
  {
    if repl[0] == '$' && |repl| >= 2 && repl[1] in "$&`'" then 2 else 1
  }

  /** The first expansion step, when it does not need the character after `x`, reads only `x`. */
  lemma FirstStepOfAppend(x: string, y: string)
    requires x != [] && x[|x| - 1] != '$'
    ensures StepLength(x + y) == StepLength(x) <= |x|
    ensures (x + y)[..StepLength(x)] == x[..StepLength(x)]
    ensures (x + y)[StepLength(x)..] == x[StepLength(x)..] + y
  {
    assert (x + y)[0] == x[0];
    if x[0] == '$' {
      assert |x| >= 2 && (x + y)[1] == x[1];
    }
  }

  /** One expansion step: the first piece, then the expansion of what follows it. */
  lemma ExpandStep(repl: string, matched: string, before: string, after: string)
    requires repl != []
    ensures Expand(repl, matched, before, after) ==
            Expand(repl[..StepLength(repl)], matched, before, after) +
            Expand(repl[StepLength(repl)..], matched, before, after)
  {
    var k := StepLength(repl);
    var head := repl[..k];
    assert head[0] == repl[0];
    if k == 2 {
      assert head[1] == repl[1] && head[2..] == [];
    } else {
      assert head[1..] == [];
    }
  }

  /** Expansion works piece by piece across a boundary that does not split a `$` pattern. */
  lemma {:induction false} ExpandAppend(x: string, y: string, matched: string, before: string, after: string)
    requires x == [] || x[|x| - 1] != '$'
    ensures Expand(x + y, matched, before, after) ==
            Expand(x, matched, before, after) + Expand(y, matched, before, after)
    decreases |x|
  {
    if x == [] {
      assert x + y == y;
    } else {
      var k := StepLength(x);
      var head, rest := x[..k], x[k..];
      var e := (r: string) => Expand(r, matched, before, after);
      assert e(x + y) == e(head) + e(rest + y) by {
        FirstStepOfAppend(x, y);
        ExpandStep(x + y, matched, before, after);
      }
      assert e(rest + y) == e(rest) + e(y) by {
        assert rest == [] || rest[|rest| - 1] == x[|x| - 1];
        ExpandAppend(rest, y, matched, before, after);
      }
      assert e(x) == e(head) + e(rest) by {
        ExpandStep(x, matched, before, after);
      }
    }
  }

  /** A replacement opening with `$&` starts with the matched text. */
  lemma ExpandLeadingAmpersand(post: string, matched: string, before: string, after: string)
    ensures Expand("$&" + post, matched, before, after) == matched + Expand(post, matched, before, after)
  {
    var r := "$&" + post;
    assert r[0] == '$' && r[1] == '&' && r[2..] == post;
  }

  /**
   * A replacement that embeds `$&` between text without `$` patterns comes out with the matched
   * text where the `$&` was.
   */
  lemma ExpandEmbeddedAmpersand(pre: string, post: string, matched: string, before: string, after: string)
    requires NoDollarPattern(pre) && NoDollarPattern(post)
    requires pre == [] || pre[|pre| - 1] != '$'
    ensures Expand(pre + "$&" + post, matched, before, after) == pre + matched + post
  {
    var e := (r: string) => Expand(r, matched, before, after);
    var tail := "$&" + post;
    assert pre + "$&" + post == pre + tail;
    assert e(pre + tail) == e(pre) + e(tail) by {
      ExpandAppend(pre, tail, matched, before, after);
    }
    assert e(pre) == pre by {
      ExpandWithoutPattern(pre, matched, before, after);
    }
    assert e(tail) == matched + post by {
      ExpandLeadingAmpersand(post, matched, before, after);
      ExpandWithoutPattern(post, matched, before, after);
    }
  }

  /** `s.replace(pat, repl)` puts the expansion of `repl` where the first occurrence was. */
  lemma ReplaceByExpansion(s: string, pat: string, repl: string, expanded: string)
    requires IndexOf(s, pat).Some?
    requires var i := IndexOf(s, pat).value;
      Expand(repl, pat, s[..i], s[i + |pat|..]) == expanded
    ensures var i := IndexOf(s, pat).value;
      Replace(s, pat, repl) == s[..i] + expanded + s[i + |pat|..]
  {
  }

  /**
   * `s.replace(pat, pre + "$&" + post)` puts the pattern's own text back between `pre` and
   * `post` where the first occurrence was.
   */
  lemma ReplaceEmbeddedAmpersand(s: string, pat: string, pre: string, post: string)
    requires IndexOf(s, pat).Some?
    requires NoDollarPattern(pre) && NoDollarPattern(post)
    requires pre == [] || pre[|pre| - 1] != '$'
    ensures var i := IndexOf(s, pat).value;
      Replace(s, pat, pre + "$&" + post) == s[..i] + (pre + pat + post) + s[i + |pat|..]
  {
    var i := IndexOf(s, pat).value;
    ExpandEmbeddedAmpersand(pre, post, pat, s[..i], s[i + |pat|..]);
    ReplaceByExpansion(s, pat, pre + "$&" + post, pre + pat + post);
  }

  /**
   * A replacement reading `$&` puts the matched text back: the page keeps its placeholder and
   * the replacement never reaches it.
   */
  lemma DollarAmpersandKeepsPlaceholder(s: string, pat: string)
    requires IndexOf(s, pat).Some?
    ensures Replace(s, pat, "$&") == s
  {
    var i := IndexOf(s, pat).value;
    assert Expand("$&", pat, s[..i], s[i + |pat|..]) == pat + Expand([], pat, s[..i], s[i + |pat|..]);
    assert s == s[..i] + s[i..i + |pat|] + s[i + |pat|..];
  }

  /**
   * Literal substitution puts the replacement, verbatim, where the first occurrence of the
   * pattern was, and leaves the text around it as it was.
   */
  lemma LiteralReplaceVerbatim(s: string, pat: string, repl: string)
    requires IndexOf(s, pat).Some?
    ensures var i := IndexOf(s, pat).value;
      var r := ReplaceLiteral(s, pat, repl);
      && |r| == |s| - |pat| + |repl|
      && r[..i] == s[..i]
      && r[i..i + |repl|] == repl
      && r[i + |repl|..] == s[i + |pat|..]
  {
  }
}
