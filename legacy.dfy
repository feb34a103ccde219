/** The older, footer-only preprocessor: a five-placeholder template, one
    fixed footer style, and a `"\n"`-separated footer appended to every
    chapter that has a source path and does not already contain it. */
module Legacy {
  import opened Wrappers
  import opened Strings
  import opened Config
  import opened Layout
  import opened Renderer
  import opened Repo
  import opened TimeFmt
  import opened Book
  import opened Page

  /** `render_template` of the older version: five replace-all passes, in
      this order; there is no `{{branch}}` placeholder. */
  function RenderTemplateLegacy(template: string, hash: string, longHash: string, tag: string,
                                date: string, sep: string): (r: string)
    ensures !Contains(template, "{{") ==> r == template
  {
    var t1 := Replace(template, HashToken, hash);
    var t2 := Replace(t1, LongToken, longHash);
    var t3 := Replace(t2, TagToken, tag);
    var t4 := Replace(t3, DateToken, date);
    var r := Replace(t4, SepToken, sep);
    if Contains(template, "{{") then r
    else
      NoPlaceholderTokens(template);
      ReplaceNoMatch(template, HashToken, hash);
      ReplaceNoMatch(template, LongToken, longHash);
      ReplaceNoMatch(template, TagToken, tag);
      ReplaceNoMatch(template, DateToken, date);
      ReplaceNoMatch(template, SepToken, sep);
      r
  }

  /** The current renderer is the older one followed by a `{{branch}}` pass. */
  lemma RenderTemplateExtendsLegacy(template: string, hash: string, longHash: string, tag: string,
                                    date: string, sep: string, branch: string)
    ensures RenderTemplate(template, hash, longHash, tag, date, sep, branch)
         == Replace(RenderTemplateLegacy(template, hash, longHash, tag, date, sep), BranchToken, branch)
  {
  }

  /** `{{branch}}` passes through the older renderer untouched. */
  lemma LegacyLeavesBranchToken(hash: string, longHash: string, tag: string, date: string, sep: string)
    ensures RenderTemplateLegacy(BranchToken, hash, longHash, tag, date, sep) == BranchToken
  {
    BranchTokenHoldsNoOtherToken();
    ReplaceNoMatch(BranchToken, HashToken, hash);
    ReplaceNoMatch(BranchToken, LongToken, longHash);
    ReplaceNoMatch(BranchToken, TagToken, tag);
    ReplaceNoMatch(BranchToken, DateToken, date);
    ReplaceNoMatch(BranchToken, SepToken, sep);
  }

  /** The unit test of the older renderer: hash and date are filled in, and
      the empty long hash, tag and the separator have nothing to replace. */
  lemma LegacyRenderExample()
    ensures RenderTemplateLegacy("Commit: {{hash}} on {{date}}", "abcd123", "", "", "2025-06-24", "|")
         == "Commit: abcd123 on 2025-06-24"
  {
    var t1 := "Commit: abcd123 on {{date}}";
    var t4 := "Commit: abcd123 on 2025-06-24";
    ExampleHashPass("Commit: {{hash}} on {{date}}");
    ExampleLongPass();
    ExampleTagPass();
    ExampleDatePass(t1);
    ExampleSepAbsent();
    ReplaceNoMatch(t4, SepToken, "|");
  }

  lemma ExampleSepAbsent()
    ensures !Contains("Commit: abcd123 on 2025-06-24", SepToken)
  {
    assert '{' !in "Commit: abcd123 on 2025-06-24";
    NotContainsWithoutHead("Commit: abcd123 on 2025-06-24", SepToken);
  }

  lemma ExampleHashPass(s: string)
    requires s == "Commit: {{hash}} on {{date}}"
    ensures Replace(s, HashToken, "abcd123") == "Commit: abcd123 on {{date}}"
  {
    assert s == "Commit: " + HashToken + " on {{date}}";
    ReplaceFirstAfter("Commit: ", HashToken, " on {{date}}", "abcd123");
    ExampleHashTail();
    HashFilledLine();
  }

  /** The example line with the hash pass's value in place of `{{hash}}`. */
  lemma HashFilledLine()
    ensures "Commit: " + "abcd123" + " on {{date}}" == "Commit: abcd123 on {{date}}"
  {
  }

  lemma ExampleHashTail()
    ensures Replace(" on {{date}}", HashToken, "abcd123") == " on {{date}}"
  {
    var b := " on {{date}}";
    assert b[..4] == " on ";
    NoMatchBeforeHead(b, 4, HashToken);
    assert b[4..12] == "{{date}}";
    assert NoMatchAt(b, 4, HashToken);
    ReplaceSkipsPrefix(b, 5, HashToken, "abcd123");
    assert |b[5..]| < |HashToken|;
    assert b[..5] + b[5..] == b;
  }

  lemma ExampleLongPass()
    ensures Replace("Commit: abcd123 on {{date}}", LongToken, "") == "Commit: abcd123 on {{date}}"
  {
    var s := "Commit: abcd123 on {{date}}";
    assert s[..19] == "Commit: abcd123 on ";
    NoMatchBeforeHead(s, 19, LongToken);
    assert s[19..27] == "{{date}}";
    assert NoMatchAt(s, 19, LongToken);
    ReplaceSkipsPrefix(s, 20, LongToken, "");
    assert |s[20..]| < |LongToken|;
    assert s[..20] + s[20..] == s;
  }

  lemma ExampleTagPass()
    ensures Replace("Commit: abcd123 on {{date}}", TagToken, "") == "Commit: abcd123 on {{date}}"
  {
    var s := "Commit: abcd123 on {{date}}";
    assert s[..19] == "Commit: abcd123 on ";
    NoMatchBeforeHead(s, 19, TagToken);
    assert s[19..26] == "{{date}" && s[20..27] == "{date}}";
    assert NoMatchAt(s, 19, TagToken) && NoMatchAt(s, 20, TagToken);
    ReplaceSkipsPrefix(s, 21, TagToken, "");
    assert |s[21..]| < |TagToken|;
    assert s[..21] + s[21..] == s;
  }

  lemma ExampleDatePass(s: string)
    requires s == "Commit: abcd123 on {{date}}"
    ensures Replace(s, DateToken, "2025-06-24") == "Commit: abcd123 on 2025-06-24"
  {
    assert s == "Commit: abcd123 on " + DateToken + "";
    ReplaceFirstAfter("Commit: abcd123 on ", DateToken, "", "2025-06-24");
    DateFilledLine();
  }

  /** The example line with the date pass's value in place of `{{date}}`. */
  lemma DateFilledLine()
    ensures "Commit: abcd123 on " + "2025-06-24" + Replace("", DateToken, "2025-06-24") == "Commit: abcd123 on 2025-06-24"
  {
    assert Replace("", DateToken, "2025-06-24") == "";
  }

  /** The default separator as the older version spells it: the three
      characters that the UTF-8 bytes of a bullet read as in Windows-1252. */
  const SeparatorAsWritten := " \U{00E2}\U{20AC}\U{00A2} "

  /** The three-byte UTF-8 form of a code point in U+0800..U+FFFF. */
  function Utf8Encode3(c: int): (r: seq<int>)
    requires 0x800 <= c < 0x1_0000
    ensures |r| == 3 && 0xE0 <= r[0] < 0xF0 && 0x80 <= r[1] < 0xC0 && 0x80 <= r[2] < 0xC0
    ensures (r[0] - 0xE0) * 4096 + (r[1] - 0x80) * 64 + (r[2] - 0x80) == c
  {
    [0xE0 + c / 4096, 0x80 + (c / 64) % 64, 0x80 + c % 64]
  }

  /** Windows-1252 code points for the bytes 0x80..0x9F; 0 marks the five
      bytes the code page leaves undefined. */
  const Cp1252High: seq<int> := [
    0x20AC, 0, 0x201A, 0x0192, 0x201E, 0x2026, 0x2020, 0x2021,
    0x02C6, 0x2030, 0x0160, 0x2039, 0x0152, 0, 0x017D, 0,
    0, 0x2018, 0x2019, 0x201C, 0x201D, 0x2022, 0x2013, 0x2014,
    0x02DC, 0x2122, 0x0161, 0x203A, 0x0153, 0, 0x017E, 0x0178]

  /** One byte read as Windows-1252. */
  function Cp1252Char(b: int): (r: Option<char>)
    requires 0 <= b < 256
    ensures (b < 0x80 || 0xA0 <= b) ==> r == Some(b as char)
  {
    if b < 0x80 || 0xA0 <= b then Some(b as char)
    else if Cp1252High[b - 0x80] == 0 then None
    else Some(Cp1252High[b - 0x80] as char)
  }

  /** Bytes read as Windows-1252 text; `None` on an undefined byte. */
  function Cp1252Decode(bytes: seq<int>): Option<string>
    requires forall i :: 0 <= i < |bytes| ==> 0 <= bytes[i] < 256
  {
    if |bytes| == 0 then Some("")
    else match (Cp1252Char(bytes[0]), Cp1252Decode(bytes[1..]))
      case (Some(c), Some(rest)) => Some([c] + rest)
      case _ => None
  }

  /** The older default separator is the documented bullet separator after a
      UTF-8 to Windows-1252 mix-up, and differs from it. */
  lemma SeparatorAsWrittenIsMisdecodedBullet()
    ensures Cp1252Decode(Utf8Encode3(0x2022)) == Some("\U{00E2}\U{20AC}\U{00A2}")
    ensures SeparatorAsWritten == " " + Cp1252Decode(Utf8Encode3(0x2022)).value + " "
    ensures SeparatorAsWritten != DefaultSeparator
  {
    var bytes := Utf8Encode3(0x2022);
    assert bytes == [0xE2, 0x80, 0xA2];
    assert Cp1252Decode([0xA2]) == Some("\U{00A2}") by {
      assert [0xA2][1..] == [];
      assert Cp1252Decode([]) == Some("");
      assert ['\U{00A2}'] + "" == "\U{00A2}";
      assert Cp1252Char(0xA2) == Some('\U{00A2}');
    }
    assert Cp1252Decode([0x80, 0xA2]) == Some("\U{20AC}\U{00A2}") by {
      assert [0x80, 0xA2][1..] == [0xA2];
      assert ['\U{20AC}'] + "\U{00A2}" == "\U{20AC}\U{00A2}";
      assert Cp1252Char(0x80) == Some('\U{20AC}');
    }
    assert Cp1252Decode(bytes) == Some("\U{00E2}\U{20AC}\U{00A2}") by {
      assert bytes[1..] == [0x80, 0xA2];
      assert ['\U{00E2}'] + "\U{20AC}\U{00A2}" == "\U{00E2}\U{20AC}\U{00A2}";
      assert Cp1252Char(0xE2) == Some('\U{00E2}');
    }
    assert SeparatorAsWritten[1] != DefaultSeparator[1];
  }

  /** The separator setting of the older version as written: unset gives the
      misspelt bullet. */
  function LegacySeparatorAsWritten(cfg: GitInfoConfig): (r: string)
    ensures cfg.separator.Some? ==> r == cfg.separator.value
    ensures cfg.separator.None? ==> r == SeparatorAsWritten && r != DefaultSeparator
  {
    SeparatorAsWrittenIsMisdecodedBullet();
    cfg.separator.GetOr(SeparatorAsWritten)
  }

  /** The settings the older version reads, defaults applied. */
  datatype LegacyContext = LegacyContext(
    git: Git,
    clock: Clock,
    contentDir: string,
    template: string,
    fontSize: string,
    separator: string,
    dateFormat: string,
    timeFormat: string)

  /** The older version's defaults, with the separator corrected to the
      documented bullet. */
  function LegacySettings(cfg: GitInfoConfig, git: Git, clock: Clock, contentDir: string): (r: LegacyContext)
    ensures r.template == if cfg.template.Some? then cfg.template.value else "{{date}}{{sep}}commit: {{hash}}"
    ensures r.fontSize == if cfg.fontSize.Some? then cfg.fontSize.value else "0.8em"
    ensures r.separator == if cfg.separator.Some? then cfg.separator.value else " \U{2022} "
    ensures r.dateFormat == if cfg.dateFormat.Some? then cfg.dateFormat.value else "%Y-%m-%d"
    ensures r.timeFormat == if cfg.timeFormat.Some? then cfg.timeFormat.value else "%H:%M:%S"
    ensures (r.git, r.clock, r.contentDir) == (git, clock, contentDir)
  {
    LegacyContext(git, clock, contentDir,
                  cfg.template.GetOr(DefaultMessage),
                  cfg.fontSize.GetOr(DefaultFontSize),
                  cfg.separator.GetOr(DefaultSeparator),
                  cfg.dateFormat.GetOr(DefaultDateFormat),
                  cfg.timeFormat.GetOr(DefaultTimeFormat))
  }

  /** Unset, the separator of both versions is the same bullet. */
  lemma DefaultSeparatorsAgree(git: Git, clock: Clock, contentDir: string)
    ensures LegacySettings(DefaultConfig, git, clock, contentDir).separator == DefaultSeparator
  {
  }

  /** The older date: the commit time in the host's zone, date and time
      formatted separately and joined by a space; `"unknown"` when the raw
      text does not parse. */
  function LegacyDate(clock: Clock, raw: string, dateFmt: string, timeFmt: string): (r: string)
    ensures clock.parseRfc3339(raw).None? ==> r == "unknown"
    ensures clock.parseRfc3339(raw).Some? ==>
      var local := InZone(clock, clock.parseRfc3339(raw).value, Local);
      && local.offset == clock.localOffset(clock.parseRfc3339(raw).value.utcSeconds)
      && r == clock.format(local, dateFmt) + " " + clock.format(local, timeFmt)
  {
    match clock.parseRfc3339(raw)
    case None => "unknown"
    case Some(dt) =>
      var local := InZone(clock, dt, Local);
      clock.format(local, dateFmt) + " " + clock.format(local, timeFmt)
  }

  /** The rendered template of one chapter: hash and long hash from `git
      log`, the tag from `git describe`, the date from `git log`, none of
      them restricted to a branch. A failed command gives `""`, and
      `"unknown"` for the raw date. */
  function LegacyRender(lctx: LegacyContext, path: string): (r: string)
    ensures !Contains(lctx.template, "{{") ==> r == lctx.template
  {
    var p := GitPath(lctx.contentDir, path);
    var shortHash := lctx.git(["log", "-1", "--format=%h", "--", p]).GetOr("");
    var longHash := lctx.git(["log", "-1", "--format=%H", "--", p]).GetOr("");
    var tag := lctx.git(["describe", "--tags", "--always", "--", p]).GetOr("");
    var raw := lctx.git(["log", "-1", "--format=%cd", "--date=iso-strict", "--", p]).GetOr("unknown");
    RenderTemplateLegacy(lctx.template, shortHash, longHash, tag,
                         LegacyDate(lctx.clock, raw, lctx.dateFormat, lctx.timeFormat), lctx.separator)
  }

  function LegacyStyle(fontSize: string): string {
    "font-size:" + fontSize + ";padding:4px;margin:0.5em 0;text-align:right;display:block;"
  }

  /** The older footer element: a fixed right-aligned style around the
      rendered text. */
  function LegacyFooter(fontSize: string, rendered: string): (r: string)
    ensures r == "<footer><span class=\"gitinfo-footer\" style=\"font-size:" + fontSize
                 + ";padding:4px;margin:0.5em 0;text-align:right;display:block;\">" + rendered + "</span></footer>"
    ensures Contains(r, rendered)
  {
    var open := "<footer><span class=\"gitinfo-footer\" style=\"" + LegacyStyle(fontSize) + "\">";
    var close := "</span></footer>";
    var r := open + rendered + close;
    assert Contains(r, rendered) by {
      ContainsSelf(rendered);
      ContainsInLeft(rendered, close, rendered);
      ContainsInRight(open, rendered + close, rendered);
      assert r == open + (rendered + close);
    }
    r
  }

  /** A chapter's new content in the older version: unchanged without a
      path or when the footer is already there, otherwise the footer
      appended after a newline. */
  function LegacyDecorate(lctx: LegacyContext, path: Option<string>, content: string): (r: string)
    ensures path.None? ==> r == content
    ensures path.Some? ==>
      var footer := LegacyFooter(lctx.fontSize, LegacyRender(lctx, path.value));
      && Contains(r, footer)
      && (Contains(content, footer) ==> r == content)
      && (!Contains(content, footer) ==> r == content + "\n" + footer)
  {
    match path
    case None => content
    case Some(p) =>
      var footer := LegacyFooter(lctx.fontSize, LegacyRender(lctx, p));
      if Contains(content, footer) then content
      else
        ContainsSelf(footer);
        ContainsInRight(content + "\n", footer, footer);
        content + "\n" + footer
  }

  /** Decorating twice is decorating once. */
  lemma LegacyDecorateIdempotent(lctx: LegacyContext, path: Option<string>, content: string)
    ensures LegacyDecorate(lctx, path, LegacyDecorate(lctx, path, content)) == LegacyDecorate(lctx, path, content)
  {
  }

  /** The in-place decoration of one chapter by the older version. */
  method LegacyProcessChapter(ch: Chapter, lctx: LegacyContext)
    modifies ch
    ensures ch.content == LegacyDecorate(lctx, ch.path, old(ch.content))
  {
    if ch.path.Some? {
      var decorated := LegacyFooter(lctx.fontSize, LegacyRender(lctx, ch.path.value));
      if !Contains(ch.content, decorated) {
        ch.content := ch.content + "\n";
        ch.content := ch.content + decorated;
      }
    }
  }

  /** Both versions support only the `html` renderer. */
  predicate SupportsRenderer(renderer: string) {
    renderer == "html"
  }

  lemma SupportsOnlyHtml(renderer: string)
    ensures SupportsRenderer(renderer) <==> renderer == "html"
    ensures !SupportsRenderer("HTML") && !SupportsRenderer("markdown")
  {
  }
}
