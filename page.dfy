/**
 * The page both plugins serve or write: the resolved HTML template with its body-start
 * placeholder replaced by the mount element and its inject-script placeholder replaced by the
 * bootstrap script (packages/builder/src/plugins/builder-plugin.ts:151-153 and
 * packages/render/src/plugins/render-plugin.ts:208-214).
 */
module HtmlPage {
  import opened Wrappers
  import opened ZelpisTypes
  import opened JsReplace

  /** The two `.replace` calls as written, with JavaScript's `$` patterns in the replacement. */
  function Page(template: string, ph: Placeholders, script: string): string {
    Replace(Replace(template, ph.appBodyStart, AppMount), ph.appInjectScript, script)
  }

  /** The same chain with each replacement taken literally, as `.replace(ph, () => script)` does. */
  function PageFixed(template: string, ph: Placeholders, script: string): string {
    ReplaceLiteral(ReplaceLiteral(template, ph.appBodyStart, AppMount), ph.appInjectScript, script)
  }

  /** The mount element has no `$`, so the first `.replace` is literal. */
  lemma MountIsLiteral(template: string, ph: Placeholders)
    ensures Replace(template, ph.appBodyStart, AppMount) == ReplaceLiteral(template, ph.appBodyStart, AppMount)
  {
    assert '$' !in AppMount;
    ReplaceWithoutPatternIsLiteral(template, ph.appBodyStart, AppMount);
  }

  /**
   * A script with no `$` followed by `$`, `&`, `` ` `` or `'` gives the same page through
   * `.replace` as through literal substitution; `window.$zelpis` is such a `$`.
   */
  lemma PageWithoutDollarPattern(template: string, ph: Placeholders, script: string)
    requires NoDollarPattern(script)
    ensures Page(template, ph, script) == PageFixed(template, ph, script)
  {
    MountIsLiteral(template, ph);
    ReplaceWithoutPatternIsLiteral(Replace(template, ph.appBodyStart, AppMount), ph.appInjectScript, script);
  }

  /**
   * The script carries the DSL's props as JSON, so a string value `"$&"` among them puts `$&`
   * inside it. The page as written then holds the inject placeholder's own text where the `$&`
   * was, and differs from the corrected page whenever the placeholder is not two characters long.
   */
  lemma DollarAmpersandInScript(template: string, ph: Placeholders, pre: string, post: string)
    requires IndexOf(Replace(template, ph.appBodyStart, AppMount), ph.appInjectScript).Some?
    requires NoDollarPattern(pre) && NoDollarPattern(post)
    requires pre == [] || pre[|pre| - 1] != '$'
    ensures var t := Replace(template, ph.appBodyStart, AppMount);
      var i := IndexOf(t, ph.appInjectScript).value;
      var n := |ph.appInjectScript|;
      Page(template, ph, pre + "$&" + post) == t[..i] + (pre + ph.appInjectScript + post) + t[i + n..]
    ensures |ph.appInjectScript| != 2 ==>
      Page(template, ph, pre + "$&" + post) != PageFixed(template, ph, pre + "$&" + post)
  {
    var t := Replace(template, ph.appBodyStart, AppMount);
    var i := IndexOf(t, ph.appInjectScript).value;
    var n := |ph.appInjectScript|;
    var script := pre + "$&" + post;
    assert Page(template, ph, script) == t[..i] + (pre + ph.appInjectScript + post) + t[i + n..] by {
      ReplaceEmbeddedAmpersand(t, ph.appInjectScript, pre, post);
    }
    assert PageFixed(template, ph, script) == t[..i] + script + t[i + n..] by {
      MountIsLiteral(template, ph);
    }
  }

  /**
   * The corrected page holds the script verbatim where the inject placeholder was, whatever the
   * script contains, with the text on either side kept.
   */
  lemma PageFixedHoldsScript(template: string, ph: Placeholders, script: string)
    requires IndexOf(ReplaceLiteral(template, ph.appBodyStart, AppMount), ph.appInjectScript).Some?
    ensures var t := ReplaceLiteral(template, ph.appBodyStart, AppMount);
      var i := IndexOf(t, ph.appInjectScript).value;
      var page := PageFixed(template, ph, script);
      && page == t[..i] + script + t[i + |ph.appInjectScript|..]
      && page[i..i + |script|] == script
  {
    var t := ReplaceLiteral(template, ph.appBodyStart, AppMount);
    var i := IndexOf(t, ph.appInjectScript).value;
    LiteralReplaceVerbatim(t, ph.appInjectScript, script);
  }
}
