/** `GitInfo::run` of the current preprocessor: configuration defaults, the
    branch and tag fallbacks, the contributors block, and the decoration of
    every chapter of the book. The host (environment, git, the branch and
    tag helpers, the contributor list and its renderer, the date library)
    is an input. */
module Processor {
  import opened Wrappers
  import opened Strings
  import opened Config
  import opened Layout
  import opened Repo
  import opened TimeFmt
  import opened Book
  import opened Page
  import opened Legacy
  import opened Chapters

  /** Everything `run` learns from outside the configuration. `shortlog` is
      the contributor list, `None` when it cannot be read. */
  datatype Host = Host(
    env: Env,
    git: Git,
    verifyBranch: string -> bool,
    latestTag: string -> string,
    shortlog: Option<seq<string>>,
    renderContributors: (seq<string>, string) -> string,
    clock: Clock,
    contentDir: string)

  /** The contributor heading: the configured one unless it is unset or
      blank, which gives `"Contributors"`. A non-blank title is kept as
      written, surrounding blanks included. */
  function ContributorTitle(cfg: GitInfoConfig): (r: string)
    ensures cfg.contributorTitle.None? ==> r == "Contributors"
    ensures cfg.contributorTitle.Some? && Trim(cfg.contributorTitle.value) == "" ==> r == "Contributors"
    ensures cfg.contributorTitle.Some? && Trim(cfg.contributorTitle.value) != "" ==> r == cfg.contributorTitle.value
  {
    match cfg.contributorTitle
    case Some(t) => if Trim(t) != "" then t else "Contributors"
    case None => "Contributors"
  }

  /** The users not in the excluded set, in their original order. */
  function Filter(users: seq<string>, excluded: set<string>): (r: seq<string>)
    ensures |r| <= |users|
    ensures forall u :: u in r <==> u in users && u !in excluded
    decreases |users|
  {
    if |users| == 0 then []
    else (if users[0] in excluded then [] else [users[0]]) + Filter(users[1..], excluded)
  }

  /** Filtering keeps order: it distributes over concatenation. */
  lemma {:induction false} FilterAppend(a: seq<string>, b: seq<string>, excluded: set<string>)
    ensures Filter(a + b, excluded) == Filter(a, excluded) + Filter(b, excluded)
    decreases |a|
  {
    if |a| > 0 {
      var head := if a[0] in excluded then [] else [a[0]];
      calc {
        Filter(a + b, excluded);
        == { assert (a + b)[0] == a[0]; assert (a + b)[1..] == a[1..] + b; }
        head + Filter(a[1..] + b, excluded);
        == { FilterAppend(a[1..], b, excluded); }
        head + (Filter(a[1..], excluded) + Filter(b, excluded));
        == (head + Filter(a[1..], excluded)) + Filter(b, excluded);
      }
    } else {
      assert a + b == b;
    }
  }

  /** With nothing to exclude, the list is kept whole. */
  lemma {:induction false} FilterNothingExcluded(users: seq<string>, excluded: set<string>)
    requires forall u :: u in users ==> u !in excluded
    ensures Filter(users, excluded) == users
    decreases |users|
  {
    if |users| > 0 {
      assert users[0] in users;
      FilterNothingExcluded(users[1..], excluded);
      assert [users[0]] + users[1..] == users;
    }
  }

  /** `exclude-contributors` as the set it is collected into. */
  function ExcludedSet(cfg: GitInfoConfig): set<string> {
    var names := cfg.excludeContributors.GetOr([]);
    set u | u in names
  }

  /** The contributors block: `None` when contributors are off, the empty
      string when they are on but the list cannot be read, otherwise the
      rendered list of non-excluded users. */
  function ContributorsHtml(cfg: GitInfoConfig, host: Host): (r: Option<string>)
    ensures !cfg.contributors.GetOr(false) ==> r.None?
    ensures cfg.contributors.GetOr(false) && host.shortlog.None? ==> r == Some("")
    ensures cfg.contributors.GetOr(false) && host.shortlog.Some? ==>
      r == Some(host.renderContributors(Filter(host.shortlog.value, ExcludedSet(cfg)), ContributorTitle(cfg)))
  {
    if cfg.contributors.GetOr(false) then
      match host.shortlog
      case Some(users) => Some(host.renderContributors(Filter(users, ExcludedSet(cfg)), ContributorTitle(cfg)))
      case None => Some("")
    else None
  }

  /** A configured tag, trimmed, when it is not blank. */
  function ConfiguredTag(cfg: GitInfoConfig): (r: Option<string>)
    ensures r.Some? <==> cfg.tag.Some? && Trim(cfg.tag.value) != ""
    ensures r.Some? ==> r.value == Trim(cfg.tag.value)
  {
    match cfg.tag
    case Some(t) => if Trim(t) != "" then Some(Trim(t)) else None
    case None => None
  }

  /** The tag shown on every page: the configured one, else the latest tag
      of the branch as configured (before the branch is checked). */
  function ResolvedTag(cfg: GitInfoConfig, host: Host): (r: string)
    ensures cfg.tag.Some? && Trim(cfg.tag.value) != "" ==> r == Trim(cfg.tag.value)
    ensures !(cfg.tag.Some? && Trim(cfg.tag.value) != "") ==> r == host.latestTag(cfg.branch.GetOr("main"))
  {
    ConfiguredTag(cfg).GetOr(host.latestTag(cfg.branch.GetOr(DefaultBranch)))
  }

  /** The settings `run` resolves before the walk. */
  function Settings(cfg: GitInfoConfig, host: Host): (r: PageContext)
    ensures r.branch == if host.verifyBranch(cfg.branch.GetOr("main")) then cfg.branch.GetOr("main") else "main"
    ensures r.tag == ResolvedTag(cfg, host)
    ensures r.hyperlink == cfg.hyperlink.GetOr(false)
    ensures r.repoBase == if r.hyperlink then ResolveRepoBase(host.env, host.git) else None
    ensures r.showHeader <==> cfg.header.Some? && cfg.header.value
    ensures r.showFooter <==> cfg.footer.None? || cfg.footer.value
    ensures (r.headerTemplate, r.footerTemplate) == ResolveMessages(cfg)
    ensures (r.alignHeader, r.alignFooter) == ResolveAlign(cfg.align)
    ensures (r.marginHeader, r.marginFooter) == ResolveMargins(cfg.margin)
    ensures r.separator == if cfg.separator.Some? then cfg.separator.value else " \U{2022} "
    ensures r.fontSize == if cfg.fontSize.Some? then cfg.fontSize.value else "0.8em"
    ensures r.dateFormat == if cfg.dateFormat.Some? then cfg.dateFormat.value else "%Y-%m-%d"
    ensures r.timeFormat == if cfg.timeFormat.Some? then cfg.timeFormat.value else "%H:%M:%S"
    ensures r.timezone == cfg.timezone && r.contributorsHtml == ContributorsHtml(cfg, host)
    ensures (r.git, r.clock, r.contentDir) == (host.git, host.clock, host.contentDir)
  {
    var configuredBranch := cfg.branch.GetOr(DefaultBranch);
    var hyperlink := cfg.hyperlink.GetOr(false);
    var (headerTemplate, footerTemplate) := ResolveMessages(cfg);
    var (alignHeader, alignFooter) := ResolveAlign(cfg.align);
    var (marginHeader, marginFooter) := ResolveMargins(cfg.margin);
    PageContext(
      git := host.git,
      clock := host.clock,
      contentDir := host.contentDir,
      branch := if host.verifyBranch(configuredBranch) then configuredBranch else DefaultBranch,
      timezone := cfg.timezone,
      dateFormat := cfg.dateFormat.GetOr(DefaultDateFormat),
      timeFormat := cfg.timeFormat.GetOr(DefaultTimeFormat),
      hyperlink := hyperlink,
      repoBase := if hyperlink then ResolveRepoBase(host.env, host.git) else None,
      tag := ResolvedTag(cfg, host),
      contributorsHtml := ContributorsHtml(cfg, host),
      showHeader := cfg.header.GetOr(false),
      showFooter := cfg.footer.GetOr(true),
      headerTemplate := headerTemplate,
      footerTemplate := footerTemplate,
      fontSize := cfg.fontSize.GetOr(DefaultFontSize),
      alignHeader := alignHeader,
      alignFooter := alignFooter,
      marginHeader := marginHeader,
      marginFooter := marginFooter,
      separator := cfg.separator.GetOr(DefaultSeparator))
  }

  /** The settings resolved step by step, as `run` does: the tag is looked
      up with the branch as configured, and only then is the branch reset to
      `main` if it does not exist. */
  method ResolveSettings(cfg: GitInfoConfig, host: Host) returns (ctx: PageContext)
    ensures ctx == Settings(cfg, host)
  {
    var showHeader := cfg.header.GetOr(false);
    var showFooter := cfg.footer.GetOr(true);
    var (headerTemplate, footerTemplate) := ResolveMessages(cfg);
    var fontSize := cfg.fontSize.GetOr(DefaultFontSize);
    var (alignHeader, alignFooter) := ResolveAlign(cfg.align);
    var (marginHeader, marginFooter) := ResolveMargins(cfg.margin);
    var separator := cfg.separator.GetOr(DefaultSeparator);
    var dateFormat := cfg.dateFormat.GetOr(DefaultDateFormat);
    var timeFormat := cfg.timeFormat.GetOr(DefaultTimeFormat);
    var branch := cfg.branch.GetOr(DefaultBranch);
    var hyperlink := cfg.hyperlink.GetOr(false);
    var repoBase := if hyperlink then ResolveRepoBase(host.env, host.git) else None;
    var tag;
    match ConfiguredTag(cfg) {
      case Some(t) => tag := t;
      case None => tag := host.latestTag(branch);
    }
    if !host.verifyBranch(branch) {
      branch := DefaultBranch;
    }
    var contributorsHtml := ContributorsHtml(cfg, host);
    ctx := PageContext(host.git, host.clock, host.contentDir, branch, cfg.timezone, dateFormat, timeFormat,
                       hyperlink, repoBase, tag, contributorsHtml, showHeader, showFooter,
                       headerTemplate, footerTemplate, fontSize, alignHeader, alignFooter,
                       marginHeader, marginFooter, separator);
  }

  /** A missing branch is replaced by `main`; the tag is still the one of
      the branch as configured. */
  lemma UnknownBranchFallsBack(cfg: GitInfoConfig, host: Host)
    requires !host.verifyBranch(cfg.branch.GetOr("main"))
    requires cfg.tag.None?
    ensures Settings(cfg, host).branch == "main"
    ensures Settings(cfg, host).tag == host.latestTag(cfg.branch.GetOr("main"))
  {
  }

  /** `run`: a missing or unreadable configuration counts as all defaults;
      `enable = false` returns the book untouched; otherwise every chapter of
      every item is decorated once with the resolved settings. */
  method Run(cfg: Option<GitInfoConfig>, host: Host, items: seq<BookItem>) returns (ghost visited: seq<Chapter>)
    requires ValidItems(items)
    modifies ItemsRepr(items)
    ensures cfg.GetOr(DefaultConfig).enable == Some(false) ==>
      && visited == []
      && forall j, c :: 0 <= j < |items| && c in ItemRepr(items[j]) ==> c.content == old(c.content)
    ensures cfg.GetOr(DefaultConfig).enable != Some(false) ==>
      && visited == BookPreOrder(items)
      && forall j, c :: 0 <= j < |items| && c in ItemRepr(items[j]) ==>
           c.content == DecoratePage(Settings(cfg.GetOr(DefaultConfig), host), c.path, old(c.content))
  {
    var config := cfg.GetOr(DefaultConfig);
    if !config.enable.GetOr(true) {
      return [];
    }
    var ctx := ResolveSettings(config, host);
    ghost var spec := (p: Option<string>, s: string) => DecoratePage(ctx, p, s);
    visited := DecorateBook(items, Full(ctx), spec);
  }

  /** The older `run`: a missing or unreadable configuration is an error and
      nothing changes; otherwise every chapter gets the footer. The older
      version has no `enable` switch. */
  method LegacyRun(cfg: Option<GitInfoConfig>, git: Git, clock: Clock, contentDir: string,
                   items: seq<BookItem>) returns (r: Result<(), string>)
    requires ValidItems(items)
    modifies ItemsRepr(items)
    ensures cfg.None? ==>
      && r == Err("Missing or invalid [preprocessor.gitinfo] config")
      && forall j, c :: 0 <= j < |items| && c in ItemRepr(items[j]) ==> c.content == old(c.content)
    ensures cfg.Some? ==>
      && r.Ok?
      && forall j, c :: 0 <= j < |items| && c in ItemRepr(items[j]) ==>
           c.content == LegacyDecorate(LegacySettings(cfg.value, git, clock, contentDir), c.path, old(c.content))
  {
    if cfg.None? {
      return Err("Missing or invalid [preprocessor.gitinfo] config");
    }
    var lctx := LegacySettings(cfg.value, git, clock, contentDir);
    ghost var spec := (p: Option<string>, s: string) => LegacyDecorate(lctx, p, s);
    ghost var visited := DecorateBook(items, FooterOnly(lctx), spec);
    r := Ok(());
  }
}
