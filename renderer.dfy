/** Rendering of the header and footer blocks: placeholder substitution in a
    message template, the inline CSS string, and the `<header>`/`<footer>`
    wrapper. */
module Renderer {
  import opened Strings
  import opened Layout

  const HashToken := "{{hash}}"
  const LongToken := "{{long}}"
  const TagToken := "{{tag}}"
  const DateToken := "{{date}}"
  const SepToken := "{{sep}}"
  const BranchToken := "{{branch}}"

  /** `render_template`: six replace-all passes, in this order. A value put
      in by one pass is seen by every later pass. */
  function RenderTemplate(template: string, hash: string, longHash: string, tag: string,
                          date: string, sep: string, branch: string): (r: string)
    ensures !Contains(template, "{{") ==> r == template
  {
    var t1 := Replace(template, HashToken, hash);
    var t2 := Replace(t1, LongToken, longHash);
    var t3 := Replace(t2, TagToken, tag);
    var t4 := Replace(t3, DateToken, date);
    var t5 := Replace(t4, SepToken, sep);
    var r := Replace(t5, BranchToken, branch);
    if Contains(template, "{{") then r
    else
      NoPlaceholderTokens(template);
      ReplaceNoMatch(template, HashToken, hash);
      ReplaceNoMatch(template, LongToken, longHash);
      ReplaceNoMatch(template, TagToken, tag);
      ReplaceNoMatch(template, DateToken, date);
      ReplaceNoMatch(template, SepToken, sep);
      ReplaceNoMatch(template, BranchToken, branch);
      r
  }

  /** Every placeholder starts with `{{`, so text without `{{` holds none. */
  lemma NoPlaceholderTokens(s: string)
    requires !Contains(s, "{{")
    ensures forall p | p in [HashToken, LongToken, TagToken, DateToken, SepToken, BranchToken] :: !Contains(s, p)
  {
    forall p | p in [HashToken, LongToken, TagToken, DateToken, SepToken, BranchToken]
      ensures !Contains(s, p)
    {
      if Contains(s, p) {
        ContainsPrefixOf(s, p, "{{");
      }
    }
  }

  /** A string without the pattern's first character cannot contain it. */
  lemma {:induction false} NotContainsWithoutHead(s: string, p: string)
    requires |p| > 0 && p[0] !in s
    ensures !Contains(s, p)
    decreases |s|
  {
    if |s| > 0 {
      NotContainsWithoutHead(s[1..], p);
      if |p| <= |s| {
        assert s[..|p|][0] == s[0];
      }
    }
  }

  /** A string shorter than the pattern cannot contain it. */
  lemma {:induction false} NotContainsShorter(s: string, p: string)
    requires |s| < |p|
    ensures !Contains(s, p)
    decreases |s|
  {
    if |s| > 0 {
      NotContainsShorter(s[1..], p);
    }
  }

  /** A placeholder of the same length that differs from the pattern does
      not contain it. */
  lemma NotContainsSameLength(s: string, p: string)
    requires |s| == |p| && s != p
    ensures !Contains(s, p)
  {
    if |s| > 0 {
      assert s[..|p|] == s;
      NotContainsShorter(s[1..], p);
    }
  }

  /** `{{branch}}` contains none of the other five placeholders. */
  lemma BranchTokenHoldsNoOtherToken()
    ensures forall p | p in [HashToken, LongToken, TagToken, DateToken, SepToken] :: !Contains(BranchToken, p)
  {
    var s := BranchToken;
    forall p | p in [HashToken, LongToken, TagToken, DateToken, SepToken]
      ensures !Contains(s, p)
    {
      assert s[..|p|] != p by { assert s[2] != p[2]; }
      assert s[1..][..|p|] != p by { assert s[1..][1] != p[1]; }
      NotContainsWithoutHead(s[2..], p);
    }
  }

  /** A template that is exactly `{{branch}}` renders to the branch value,
      whatever that value contains: the last pass's output is never
      rewritten. */
  lemma RenderBranchOnly(hash: string, longHash: string, tag: string, date: string, sep: string, branch: string)
    ensures RenderTemplate(BranchToken, hash, longHash, tag, date, sep, branch) == branch
  {
    BranchTokenHoldsNoOtherToken();
    ReplaceNoMatch(BranchToken, HashToken, hash);
    ReplaceNoMatch(BranchToken, LongToken, longHash);
    ReplaceNoMatch(BranchToken, TagToken, tag);
    ReplaceNoMatch(BranchToken, DateToken, date);
    ReplaceNoMatch(BranchToken, SepToken, sep);
    ReplaceWhole(BranchToken, branch);
  }

  /** Substitution is not hygienic: a value put in by an earlier pass is
      expanded by a later one. A date that reads `{{branch}}` (a date format
      may contain any literal text) comes out as the branch. */
  lemma RenderExpandsEarlierValues()
    ensures RenderTemplate(DateToken, "", "", "", BranchToken, "", "main") == "main"
  {
    NotContainsSameLength(DateToken, HashToken);
    ReplaceNoMatch(DateToken, HashToken, "");
    NotContainsSameLength(DateToken, LongToken);
    ReplaceNoMatch(DateToken, LongToken, "");
    assert !Contains(DateToken, TagToken) by {
      assert DateToken[..|TagToken|] != TagToken by { assert DateToken[2] != TagToken[2]; }
      assert DateToken[1..] != TagToken by { assert DateToken[1..][1] != TagToken[1]; }
      NotContainsSameLength(DateToken[1..], TagToken);
    }
    ReplaceNoMatch(DateToken, TagToken, "");
    ReplaceWhole(DateToken, BranchToken);
    BranchTokenHoldsNoOtherToken();
    ReplaceNoMatch(BranchToken, SepToken, "");
    ReplaceWhole(BranchToken, "main");
  }

  function CssMargin(margin: Margin): string {
    margin[0] + " " + margin[1] + " " + margin[2] + " " + margin[3]
  }

  /** `style_block`: the inline CSS of a header or footer block. */
  function StyleBlock(fontSize: string, align: string, margin: Margin): (r: string)
    ensures r == "font-size:" + fontSize + ";padding:4px;margin:" + margin[0] + " " + margin[1] + " "
                 + margin[2] + " " + margin[3] + ";text-align:" + align + ";display:block;"
  {
    "font-size:" + fontSize + ";padding:4px;margin:" + CssMargin(margin) + ";text-align:" + align + ";display:block;"
  }

  function OpenTag(isHeader: bool, style: string): string {
    if isHeader then "<header class=\"gitinfo-header\" style=\"" + style + "\">"
    else "<footer class=\"gitinfo-footer\" style=\"" + style + "\">"
  }

  function CloseTag(isHeader: bool): string {
    if isHeader then "</header>" else "</footer>"
  }

  /** `wrap_block`: the rendered text inside a `<header>` or `<footer>`
      element carrying the block's class and inline style. */
  function WrapBlock(isHeader: bool, style: string, html: string): (r: string)
    ensures isHeader ==> r == "<header class=\"gitinfo-header\" style=\"" + style + "\">" + html + "</header>"
    ensures !isHeader ==> r == "<footer class=\"gitinfo-footer\" style=\"" + style + "\">" + html + "</footer>"
    ensures Contains(r, html)
  {
    var open := OpenTag(isHeader, style);
    ContainsSelf(html);
    ContainsInLeft(html, CloseTag(isHeader), html);
    ContainsInRight(open, html + CloseTag(isHeader), html);
    assert open + html + CloseTag(isHeader) == open + (html + CloseTag(isHeader));
    open + html + CloseTag(isHeader)
  }

  /** The inner html is recovered from a block by cutting off the opening and
      closing tags, so distinct contents give distinct blocks. */
  lemma WrapBlockInner(isHeader: bool, style: string, html: string)
    ensures var r := WrapBlock(isHeader, style, html);
      r[|OpenTag(isHeader, style)|..|r| - |CloseTag(isHeader)|] == html
  {
    var r := WrapBlock(isHeader, style, html);
    assert r == OpenTag(isHeader, style) + html + CloseTag(isHeader);
  }
}
