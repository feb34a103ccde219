/** The per-chapter decoration of the current preprocessor: the commit facts
    of the chapter's file, how the hash, branch and tag are displayed, the
    `{% contributors %}` token, and the guarded insertion of the header and
    footer blocks. Every setting is resolved once per run into a
    `PageContext`; the git executable and the date library are inputs. */
module Page {
  import opened Wrappers
  import opened Strings
  import opened Layout
  import opened Renderer
  import opened Repo
  import opened TimeFmt
  import opened Book

  const ContributorsToken := "{% contributors %}"

  /** The settings and inputs shared by every chapter of one run. */
  datatype PageContext = PageContext(
    git: Git,
    clock: Clock,
    contentDir: string,
    branch: string,
    timezone: Option<string>,
    dateFormat: string,
    timeFormat: string,
    hyperlink: bool,
    repoBase: Option<string>,
    tag: string,
    contributorsHtml: Option<string>,
    showHeader: bool,
    showFooter: bool,
    headerTemplate: string,
    footerTemplate: string,
    fontSize: string,
    alignHeader: string,
    alignFooter: string,
    marginHeader: Margin,
    marginFooter: Margin,
    separator: string)

  /** `Path::join` on a Unix path: an absolute path replaces the directory;
      otherwise the two are joined with one `/`. */
  function JoinPath(dir: string, path: string): (r: string)
    ensures EndsWith(r, path)
    ensures StartsWith(path, "/") || |dir| == 0 ==> r == path
    ensures !StartsWith(path, "/") && |dir| > 0 ==>
      var sep := r[..|r| - |path|];
      (sep == dir || sep == dir + "/") && EndsWith(sep, "/")
  {
    var r := if StartsWith(path, "/") || |dir| == 0 then path
             else if dir[|dir| - 1] == '/' then dir + path
             else dir + "/" + path;
    assert r[|r| - |path|..] == path;
    assert |dir| > 0 && !StartsWith(path, "/") ==> r[..|r| - |path|] == if dir[|dir| - 1] == '/' then dir else dir + "/";
    r
  }

  /** `str::replace` with single characters. */
  function ReplaceChar(s: string, from: char, to: char): (r: string)
    ensures |r| == |s|
    ensures forall i :: 0 <= i < |s| ==> r[i] == (if s[i] == from then to else s[i])
  {
    seq(|s|, i requires 0 <= i < |s| => if s[i] == from then to else s[i])
  }

  /** The path handed to git: the content directory joined with the
      chapter's path, backslashes turned into slashes. */
  function GitPath(contentDir: string, path: string): (r: string)
    ensures '\\' !in r
    ensures |r| == |JoinPath(contentDir, path)|
    ensures forall i :: 0 <= i < |r| ==>
      r[i] == (var c := JoinPath(contentDir, path)[i]; if c == '\\' then '/' else c)
  {
    var r := ReplaceChar(JoinPath(contentDir, path), '\\', '/');
    assert forall i :: 0 <= i < |r| ==> r[i] != '\\';
    r
  }

  /** `git log -1 --format=<format> <branch> -- <path>`. */
  function LogArgs(format: string, branch: string, path: string): seq<string> {
    ["log", "-1", "--format=" + format, branch, "--", path]
  }

  /** What the chapter's last commit on the branch says about its file; a
      failed git command reads as the empty string. */
  datatype ChapterFacts = ChapterFacts(shortHash: string, longHash: string, formattedDate: string)

  /** What `git log -1 --format=<format>` prints for the chapter's file. */
  function LogQuery(ctx: PageContext, path: string, format: string): Option<string> {
    ctx.git(LogArgs(format, ctx.branch, GitPath(ctx.contentDir, path)))
  }

  /** The three `git log` queries for the chapter's file, each with the
      same branch and the same path; a failed query is the empty string, and
      the date is formatted as `format_commit_datetime` does. */
  function Facts(ctx: PageContext, path: string): (r: ChapterFacts)
    ensures LogQuery(ctx, path, "%h").None? ==> r.shortHash == ""
    ensures LogQuery(ctx, path, "%h").Some? ==> r.shortHash == LogQuery(ctx, path, "%h").value
    ensures LogQuery(ctx, path, "%H").None? ==> r.longHash == ""
    ensures LogQuery(ctx, path, "%H").Some? ==> r.longHash == LogQuery(ctx, path, "%H").value
    ensures LogQuery(ctx, path, "%cI").None? ==>
      r.formattedDate == FormatCommitDatetime(ctx.clock, "", ctx.timezone, ctx.dateFormat, ctx.timeFormat)
    ensures LogQuery(ctx, path, "%cI").Some? ==>
      r.formattedDate == FormatCommitDatetime(ctx.clock, LogQuery(ctx, path, "%cI").value, ctx.timezone, ctx.dateFormat, ctx.timeFormat)
  {
    var pathStr := GitPath(ctx.contentDir, path);
    var raw := ctx.git(LogArgs("%cI", ctx.branch, pathStr)).GetOr("");
    ChapterFacts(
      ctx.git(LogArgs("%h", ctx.branch, pathStr)).GetOr(""),
      ctx.git(LogArgs("%H", ctx.branch, pathStr)).GetOr(""),
      FormatCommitDatetime(ctx.clock, raw, ctx.timezone, ctx.dateFormat, ctx.timeFormat))
  }

  /** An HTML link. */
  function Anchor(href: string, text: string): string {
    "<a href=\"" + href + "\">" + text + "</a>"
  }

  /** The link text and the target are recovered from an anchor. */
  lemma AnchorParts(href: string, text: string)
    ensures var a := Anchor(href, text);
      a[9..9 + |href|] == href && a[|href| + 11..|a| - 4] == text
  {
  }

  /** The hash and branch as displayed: links to the commit and to the
      branch tree when links are on and the repository base is known,
      plain text otherwise. */
  function HashBranchDisplay(hyperlink: bool, repoBase: Option<string>, shortHash: string,
                             longHash: string, branch: string): (r: (string, string))
    ensures hyperlink && repoBase.Some? ==>
      && r.0 == Anchor(repoBase.value + "/commit/" + longHash, shortHash)
      && r.1 == Anchor(repoBase.value + "/tree/" + branch, branch)
    ensures !hyperlink || repoBase.None? ==> r == (shortHash, branch)
  {
    if hyperlink && repoBase.Some? then
      (Anchor(repoBase.value + "/commit/" + longHash, shortHash),
       Anchor(repoBase.value + "/tree/" + branch, branch))
    else (shortHash, branch)
  }

  /** The tag as displayed: `-` when links are off, the tag is empty or it
      is git's "No tags found" message; otherwise a link to the provider's
      tag page when the base is known, and the bare tag when it is not. */
  function TagDisplay(hyperlink: bool, repoBase: Option<string>, tag: string): (r: string)
    ensures !hyperlink || |tag| == 0 || Contains(tag, "No tags found") ==> r == "-"
    ensures hyperlink && |tag| > 0 && !Contains(tag, "No tags found") && repoBase.None? ==> r == tag
    ensures hyperlink && |tag| > 0 && !Contains(tag, "No tags found") && repoBase.Some? ==>
      r == Anchor(TagUrl(repoBase.value, tag), tag)
  {
    if |tag| > 0 && !Contains(tag, "No tags found") && hyperlink then
      match repoBase
      case Some(base) => Anchor(TagUrl(base, tag), tag)
      case None => tag
    else "-"
  }

  /** The contributors token, replaced by the contributors block, or removed
      when contributors are off. The `contains` guard in front of the
      replacement changes nothing: the result is always the plain
      replace-all. */
  function ReplaceContributors(content: string, html: Option<string>): (r: string)
    ensures r == Replace(content, ContributorsToken, html.GetOr(""))
    ensures !Contains(content, ContributorsToken) ==> r == content
  {
    if Contains(content, ContributorsToken) then Replace(content, ContributorsToken, html.GetOr(""))
    else
      ReplaceNoMatch(content, ContributorsToken, html.GetOr(""));
      content
  }

  /** The header block followed by a blank line, put in front of the content
      unless the content already starts with exactly that. */
  function InsertHeader(content: string, html: string): (r: string)
    ensures StartsWith(r, html + "\n\n")
    ensures StartsWith(content, html + "\n\n") ==> r == content
    ensures !StartsWith(content, html + "\n\n") ==> r == html + "\n\n" + content
  {
    if StartsWith(content, html + "\n\n") then content
    else
      var r := html + "\n\n" + content;
      assert r[..|html + "\n\n"|] == html + "\n\n";
      r
  }

  /** `"\n"` when the content already ends in a blank line, `"\n\n"` otherwise. */
  function FooterPrefix(content: string): string {
    if EndsWith(content, "\n\n") then "\n" else "\n\n"
  }

  /** The footer block appended after a blank line and followed by a
      newline, unless the content already contains it anywhere. */
  function InsertFooter(content: string, html: string): (r: string)
    ensures Contains(r, html) && StartsWith(r, content)
    ensures Contains(content, html) ==> r == content
    ensures !Contains(content, html) ==>
      && r == content + FooterPrefix(content) + html + "\n"
      && EndsWith(r, "\n\n" + html + "\n")
  {
    if Contains(content, html) then
      assert StartsWith(content, content);
      content
    else
      var prefix := FooterPrefix(content);
      var r := content + prefix + html + "\n";
      assert r[..|content|] == content;
      assert r == (content + prefix) + (html + "\n");
      assert Contains(html + "\n", html) by {
        ContainsSelf(html);
        ContainsInLeft(html, "\n", html);
      }
      ContainsInRight(content + prefix, html + "\n", html);
      assert EndsWith(r, "\n\n" + html + "\n") by {
        if EndsWith(content, "\n\n") {
          assert r[|r| - |"\n\n" + html + "\n"|..] == "\n\n" + html + "\n";
        } else {
          assert r[|r| - |"\n\n" + html + "\n"|..] == "\n\n" + html + "\n";
        }
      }
      r
  }

  /** The template rendered with the chapter's displayed values. */
  function Render(ctx: PageContext, facts: ChapterFacts, template: string): (r: string)
    ensures !Contains(template, "{{") ==> r == template
    ensures template == BranchToken ==>
      r == HashBranchDisplay(ctx.hyperlink, ctx.repoBase, facts.shortHash, facts.longHash, ctx.branch).1
  {
    var (hashDisp, branchDisp) := HashBranchDisplay(ctx.hyperlink, ctx.repoBase, facts.shortHash, facts.longHash, ctx.branch);
    var tagDisp := TagDisplay(ctx.hyperlink, ctx.repoBase, ctx.tag);
    RenderBranchOnly(hashDisp, facts.longHash, tagDisp, facts.formattedDate, ctx.separator, branchDisp);
    RenderTemplate(template, hashDisp, facts.longHash, tagDisp, facts.formattedDate, ctx.separator, branchDisp)
  }

  /** The header element of a chapter: the header template rendered with
      the chapter's facts, inside a `<header>` carrying the header's style. */
  function HeaderHtml(ctx: PageContext, path: string): (r: string)
    ensures var style := StyleBlock(ctx.fontSize, ctx.alignHeader, ctx.marginHeader);
      var body := Render(ctx, Facts(ctx, path), ctx.headerTemplate);
      && r == "<header class=\"gitinfo-header\" style=\"" + style + "\">" + body + "</header>"
      && (!Contains(ctx.headerTemplate, "{{") ==> body == ctx.headerTemplate)
  {
    WrapBlock(true, StyleBlock(ctx.fontSize, ctx.alignHeader, ctx.marginHeader),
              Render(ctx, Facts(ctx, path), ctx.headerTemplate))
  }

  /** The footer element of a chapter: the footer template rendered with
      the chapter's facts, inside a `<footer>` carrying the footer's style. */
  function FooterHtml(ctx: PageContext, path: string): (r: string)
    ensures var style := StyleBlock(ctx.fontSize, ctx.alignFooter, ctx.marginFooter);
      var body := Render(ctx, Facts(ctx, path), ctx.footerTemplate);
      && r == "<footer class=\"gitinfo-footer\" style=\"" + style + "\">" + body + "</footer>"
      && (!Contains(ctx.footerTemplate, "{{") ==> body == ctx.footerTemplate)
  {
    WrapBlock(false, StyleBlock(ctx.fontSize, ctx.alignFooter, ctx.marginFooter),
              Render(ctx, Facts(ctx, path), ctx.footerTemplate))
  }

  /** What the header step can put in front of the chapter: nothing, or the
      header block and a blank line. */
  predicate HeaderPart(pre: string, header: Option<string>) {
    pre == "" || (header.Some? && pre == header.value + "\n\n")
  }

  /** What the footer step can append to the chapter: nothing, or a newline
      or a blank line, the footer block and a newline. */
  predicate FooterPart(post: string, footer: Option<string>) {
    post == "" || (footer.Some? && (post == "\n" + footer.value + "\n" || post == "\n\n" + footer.value + "\n"))
  }

  /** The content steps of a chapter's decoration, given the rendered
      blocks (`None` for a block that is switched off): the token is
      replaced, then the header and the footer are put in where not already
      present. */
  function DecorateContent(content: string, contributors: Option<string>,
                           header: Option<string>, footer: Option<string>): (r: string)
    ensures header.Some? ==> StartsWith(r, header.value + "\n\n")
    ensures footer.Some? ==> Contains(r, footer.value)
    ensures header.None? && footer.None? ==> r == Replace(content, ContributorsToken, contributors.GetOr(""))
    ensures exists pre, post ::
      HeaderPart(pre, header) && FooterPart(post, footer)
      && r == pre + Replace(content, ContributorsToken, contributors.GetOr("")) + post
  {
    var replaced := ReplaceContributors(content, contributors);
    var withHeader := match header case Some(h) => InsertHeader(replaced, h) case None => replaced;
    var pre := if withHeader == replaced then "" else header.value + "\n\n";
    assert HeaderPart(pre, header) && withHeader == pre + replaced;
    match footer
    case Some(f) =>
      var r := InsertFooter(withHeader, f);
      var post := if r == withHeader then "" else FooterPrefix(withHeader) + f + "\n";
      AppendGroups(withHeader, FooterPrefix(withHeader), f, "\n");
      assert FooterPart(post, footer) && r == withHeader + post;
      if header.Some? then
        StartsWithTrans(r, withHeader, header.value + "\n\n");
        r
      else r
    case None =>
      assert FooterPart("", footer) && withHeader == pre + replaced + "";
      withHeader
  }

  /** A chapter's new content: a chapter without a path is left alone;
      otherwise its content goes through the token, header and footer steps
      with the blocks rendered for its path. */
  function DecoratePage(ctx: PageContext, path: Option<string>, content: string): (r: string)
    ensures path.None? ==> r == content
    ensures path.Some? && ctx.showHeader ==> StartsWith(r, HeaderHtml(ctx, path.value) + "\n\n")
    ensures path.Some? && ctx.showFooter ==> Contains(r, FooterHtml(ctx, path.value))
    ensures path.Some? && !ctx.showHeader && !ctx.showFooter ==>
      r == Replace(content, ContributorsToken, ctx.contributorsHtml.GetOr(""))
    ensures path.Some? ==> exists pre, post ::
      HeaderPart(pre, HeaderBlock(ctx, path.value)) && FooterPart(post, FooterBlock(ctx, path.value))
      && r == pre + Replace(content, ContributorsToken, ctx.contributorsHtml.GetOr("")) + post
  {
    match path
    case None => content
    case Some(p) => DecorateContent(content, ctx.contributorsHtml, HeaderBlock(ctx, p), FooterBlock(ctx, p))
  }

  /** The header block of a chapter, when headers are on. */
  function HeaderBlock(ctx: PageContext, path: string): (r: Option<string>)
    ensures r.Some? <==> ctx.showHeader
    ensures r.Some? ==> r.value == HeaderHtml(ctx, path)
  {
    if ctx.showHeader then Some(HeaderHtml(ctx, path)) else None
  }

  /** The footer block of a chapter, when footers are on. */
  function FooterBlock(ctx: PageContext, path: string): (r: Option<string>)
    ensures r.Some? <==> ctx.showFooter
    ensures r.Some? ==> r.value == FooterHtml(ctx, path)
  {
    if ctx.showFooter then Some(FooterHtml(ctx, path)) else None
  }

  /** Appending three pieces one by one appends their concatenation. */
  lemma AppendGroups(a: string, b: string, c: string, d: string)
    ensures a + b + c + d == a + (b + c + d)
  {
  }

  lemma StartsWithTrans(s: string, t: string, p: string)
    requires StartsWith(s, t)
    ensures StartsWith(t, p) ==> StartsWith(s, p)
  {
    if StartsWith(t, p) {
      assert s[..|p|] == t[..|p|];
    }
  }

  /** The content steps applied twice are applied once, as long as the
      result holds no contributors token: the header and footer steps are
      guarded by their own presence. */
  lemma DecorateContentIdempotent(content: string, contributors: Option<string>,
                                  header: Option<string>, footer: Option<string>)
    requires !Contains(DecorateContent(content, contributors, header, footer), ContributorsToken)
    ensures var once := DecorateContent(content, contributors, header, footer);
      DecorateContent(once, contributors, header, footer) == once
  {
    var once := DecorateContent(content, contributors, header, footer);
    assert ReplaceContributors(once, contributors) == once;
    var withHeader := match header case Some(h) => InsertHeader(once, h) case None => once;
    assert withHeader == once;
    if footer.Some? {
      assert InsertFooter(once, footer.value) == once;
    }
  }

  /** Decorating twice is decorating once, as long as the decorated content
      holds no contributors token (the token pass is the only step that can
      change content a second time: header and footer are guarded). */
  lemma DecoratePageIdempotent(ctx: PageContext, path: Option<string>, content: string)
    requires !Contains(DecoratePage(ctx, path, content), ContributorsToken)
    ensures DecoratePage(ctx, path, DecoratePage(ctx, path, content)) == DecoratePage(ctx, path, content)
  {
    if path.Some? {
      var p := path.value;
      DecorateContentIdempotent(content, ctx.contributorsHtml, HeaderBlock(ctx, p), FooterBlock(ctx, p));
    }
  }

  /** The token pass alone is not idempotent: removing one token can join
      its neighbours into a new one, which a second pass removes again. */
  lemma ReplaceContributorsNotIdempotent()
    ensures var s := "{% contri{% contributors %}butors %}";
      ReplaceContributors(s, None) == ContributorsToken
      && ReplaceContributors(ReplaceContributors(s, None), None) == ""
  {
    var s := "{% contri{% contributors %}butors %}";
    var t := ContributorsToken;
    ExampleNoEarlyMatch();
    ReplaceSkipsPrefix(s, 9, t, "");
    ExampleAfterPrefix();
    TokenHalvesJoin();
    ReplaceWhole(t, "");
  }

  lemma ExampleNoEarlyMatch()
    ensures forall i :: 0 <= i < 9 ==> NoMatchAt("{% contri{% contributors %}butors %}", i, ContributorsToken)
  {
    var s := "{% contri{% contributors %}butors %}";
    var t := ContributorsToken;
    forall i | 0 <= i < 9 ensures NoMatchAt(s, i, t) {
      if i == 0 {
        assert s[9] == '{' && t[9] == 'b';
        assert s[i..i + |t|][9] == s[9];
      } else {
        assert s[i] != '{';
        assert s[i..i + |t|][0] == s[i];
      }
    }
  }

  lemma ExampleAfterPrefix()
    ensures Replace("{% contri{% contributors %}butors %}"[9..], ContributorsToken, "") == "butors %}"
  {
    var s := "{% contri{% contributors %}butors %}";
    var t := ContributorsToken;
    var rest := "butors %}";
    assert s[9..] == t + rest;
    assert (t + rest)[..|t|] == t;
    assert (t + rest)[|t|..] == rest;
    NotContainsShorter(rest, t);
    ReplaceNoMatch(rest, t, "");
  }

  /** The text before and after the inner token joins into a whole token. */
  lemma TokenHalvesJoin()
    ensures "{% contri{% contributors %}butors %}"[..9] + "butors %}" == ContributorsToken
  {
  }

  /** The in-place content steps on one chapter, in the order the source
      performs them: token replacement, header, footer. */
  method DecorateChapterContent(ch: Chapter, contributors: Option<string>,
                                header: Option<string>, footer: Option<string>)
    modifies ch
    ensures ch.content == DecorateContent(old(ch.content), contributors, header, footer)
  {
    ghost var replaced := ReplaceContributors(ch.content, contributors);
    if Contains(ch.content, ContributorsToken) {
      match contributors {
        case Some(html) =>
          ch.content := Replace(ch.content, ContributorsToken, html);
        case None =>
          ch.content := Replace(ch.content, ContributorsToken, "");
      }
    }
    assert ch.content == replaced;
    if header.Some? {
      var insertion := header.value + "\n\n";
      if !StartsWith(ch.content, insertion) {
        ch.content := insertion + ch.content;
      }
    }
    if footer.Some? {
      var html := footer.value;
      var prefix := if !EndsWith(ch.content, "\n\n") then "\n\n" else "\n";
      if !Contains(ch.content, html) {
        ch.content := ch.content + prefix;
        ch.content := ch.content + html;
        ch.content := ch.content + "\n";
      }
    }
  }

  /** The in-place decoration of one chapter: a chapter with a path gets
      the content steps with its header and footer blocks, each rendered
      only when it is switched on. */
  method ProcessChapter(ch: Chapter, ctx: PageContext)
    modifies ch
    ensures ch.content == DecoratePage(ctx, ch.path, old(ch.content))
  {
    if ch.path.Some? {
      var p := ch.path.value;
      var header := HeaderBlock(ctx, p);
      var footer := FooterBlock(ctx, p);
      DecorateChapterContent(ch, ctx.contributorsHtml, header, footer);
    }
  }
}
