# mdbook-gitinfo in Dafny

A model of mdbook-gitinfo, a preprocessor for mdBook. It stamps each chapter of a book with facts from git about that chapter's file: the short and long commit hash, the tag, the commit date and the branch. The stamp is an HTML header and/or footer block, rendered from a template with `{{hash}}`, `{{long}}`, `{{tag}}`, `{{date}}`, `{{sep}}` and `{{branch}}` placeholders. The model also covers:

- the `{% contributors %}` token;
- the theme stylesheet that the blocks use, and its registration in `book.toml`;
- the older, footer-only version of the preprocessor in `src/main.rs`.

Modules, one per concern of the program:

| module | file | what it holds |
|---|---|---|
| `Wrappers` | wrappers.dfy | `Option` and `Result` |
| `Strings` | strings.dfy | Rust `str` operations written out. `replace` is leftmost and non-overlapping. Also `trim`, `trim_end_matches`, `strip_prefix`, `split_once` and ASCII lower-casing. |
| `Config` | config.dfy | the `[preprocessor.gitinfo]` settings and their documented defaults |
| `Layout` | layout.dfy | header/footer message fallback, alignment, CSS margin shorthand |
| `Renderer` | renderer.dfy | placeholder substitution, the inline style, the `<header>`/`<footer>` wrapper |
| `Repo` | repo.dfy | remote URL normalisation, repository base priority, tag page URLs |
| `TimeFmt` | timefmt.dfy | the `timezone` setting (`local`, `utc`, `source`, `fixed:±HH:MM`) and the date pattern |
| `Book` | book.dfy | the book tree: a `Chapter` class whose `content` is updated in place, with its pre-order |
| `Page` | page.dfy | the per-chapter decoration of the current `run` (processor.rs) |
| `Legacy` | legacy.dfy | the older five-placeholder rendering and footer-only decoration (main.rs) |
| `Chapters` | chapters.dfy | `decorate_chapters`, the in-place pre-order walk |
| `Processor` | processor.dfy | settings resolved once per run, `run` and the older `run` |
| `Theme` | theme.dfy | `additional-css` normalisation and the write-only-if-different file updates |

Everything outside the program's own logic is an input:

- The git executable is a function from argument list to `Option<string>`. `None` means the command failed.
- Environment variables are a map.
- The date library is a `Clock`: RFC 3339 parsing, the host's local offset and strftime formatting.
- The helpers that `run` calls but whose code is not part of this model are fields of a `Host` value: branch verification, the latest tag of a branch, the shortlog user list and the contributors HTML renderer.
- TOML parsing and printing are function parameters.

Where the documented behaviour and the code differ, the model follows the code. The two exceptions are the defects listed under "## Findings". For each of them the code as written is modelled and compared with a corrected member, and the rest of the model is built on the corrected member. Otherwise:

- A header or footer margin that is not set is `0 0 2em 0`, even when `margin.both` is set. `both` only fills the missing sides of a header or footer setting that is present (`Layout.ResolveMarginsBothAlone`).
- Substitution is sequential replace-all, not hygienic: a date value that contains `{{branch}}` is expanded again by the later branch pass (`Renderer.RenderExpandsEarlierValues`).
- The token is replaced wherever it occurs, not only outside code fences.
- Decorating twice is a no-op when the decorated content holds no contributors token. The token pass can itself leave a token behind, even with the contributors off: `Page.ReplaceContributorsNotIdempotent` shows content where removing one token joins its neighbours into a new one.
- The older version has no `enable` switch, and a missing configuration is an error (`Processor.LegacyRun`).

## Model

| member | source | states |
|---|---|---|
| `Layout.ResolveMessages` | src/layout.rs:3-18 | The header is `message.header`, else `message.both`, else `template`, else `{{date}}{{sep}}commit: {{hash}}`. The footer takes the same chain with `message.footer`. |
| `Layout.ResolveMessagesIsFirstPresent` | src/layout.rs:4-15 | Each placement's template is the first present value of its own field, `both`, `template`, then the default. |
| `Layout.ResolveMessagesIndependent` | src/layout.rs:7-15 | Changing `message.header` never changes the footer template, and changing `message.footer` never changes the header template. |
| `Layout.FirstPresentUnfold` | src/layout.rs:7-15 | The fallback chain is the `or_else` / `unwrap_or` chain. |
| `Layout.ResolveAlign` | src/layout.rs:20-31 | `None` gives `center` twice. `One(s)` gives `(s, s)`. `Split` takes each side from its own field, else `both`, else `center`. |
| `Layout.MarginFromSetting` | src/layout.rs:33-62 | `One(v)` gives four copies. An empty list gives the fallback. A list gives the CSS shorthand of its first (up to) four values. `Sides` fills each missing side from the same side of the fallback. |
| `Layout.MarginQuadShapes` | src/layout.rs:35-53 | `[v]` gives `[v,v,v,v]`. `[a,b]` gives `[a,b,a,b]`. `[t,h,b]` gives `[t,h,b,h]`. Four or more values give the first four. |
| `Layout.ResolveMargins` | src/layout.rs:64-81 | The `both` base is resolved against zeros, and is all zeros without `both`. A present header or footer setting resolves against that base. An absent one is `0 0 2em 0`. |
| `Layout.ResolveMarginsBothAlone` | src/layout.rs:72-78 | `both` alone reaches neither placement: both get `0 0 2em 0`. |
| `Layout.ResolveMarginsSidesFromBoth` | src/layout.rs:68-78 | A per-side header setting fills its missing sides from `both`, or from zero without `both`. |
| `Renderer.RenderTemplate` | src/renderer.rs:11-17 | A template without `{{` renders to itself, whatever the six values are. |
| `Renderer.RenderBranchOnly` | src/renderer.rs:11-17 | The template `{{branch}}` renders to the branch value, whatever the other five values are. |
| `Renderer.BranchTokenHoldsNoOtherToken` | src/renderer.rs:11-16 | `{{branch}}` contains none of the five placeholders substituted before it. |
| `Renderer.RenderExpandsEarlierValues` | src/renderer.rs:11-17 | A date value equal to `{{branch}}` is expanded again by the later branch pass. |
| `Renderer.StyleBlock` | src/renderer.rs:21-29 | The style is exactly `font-size:F;padding:4px;margin:M0 M1 M2 M3;text-align:A;display:block;`. |
| `Renderer.WrapBlock` | src/renderer.rs:32-38 | The `<header class="gitinfo-header" style="S">H</header>` and `<footer class="gitinfo-footer" …>` forms. The inner HTML is always a substring. |
| `Renderer.WrapBlockInner` | src/renderer.rs:32-38 | Cutting off the opening and closing tags gives the inner HTML back. |
| `Strings.TrimIsSlice` | src/timefmt.rs:65 | `str::trim` returns a slice of its input with only whitespace cut off before and after it. With `Trim`'s own contract this fixes the result. |
| `Strings.TrimEndMatches` | src/repo.rs:4 | The result is a prefix of the input that no longer ends with the pattern: every trailing repetition is stripped. |
| `Strings.TrimEndMatchesRemovesCopies` | src/repo.rs:4 | Only copies of the pattern are stripped: the input is the result followed by `TrailingCopies` copies of the pattern. |
| `Strings.StripPrefix` | src/repo.rs:5-10 | `Some` exactly when the prefix is there, and prefix + rest is the input. |
| `Strings.SplitOnceJoin` | src/timefmt.rs:20 | Splitting `a + [c] + b` at the first `c` gives `(a, b)` when `a` has no `c`. |
| `Repo.NormaliseRepoBase` | src/repo.rs:3-12 | The URL is trimmed, then every trailing `.git` is stripped. The `git@github.com:` and `ssh://git@github.com/` prefixes are rewritten to `https://github.com/`. Anything else is returned as it is. The result never ends in `.git`. |
| `Repo.NormaliseScp` | src/repo.rs:5-7 | `git@github.com:org/repo[.git]` becomes `https://github.com/org/repo`. |
| `Repo.NormaliseSsh` | src/repo.rs:8-10 | `ssh://git@github.com/org/repo[.git]` becomes `https://github.com/org/repo`. |
| `Repo.NormaliseStripsRepeatedSuffix` | src/repo.rs:4 | `base.git.git` normalises to `base`. |
| `Repo.JoinServer` | src/repo.rs:20 | The server URL loses its trailing `/` characters before the `/path` is appended. |
| `Repo.ResolveRepoBase` | src/repo.rs:15-38 | `None` exactly when no source is available; an environment pair counts only when both variables are set. With both GitHub variables set, the base is the GitHub server, trailing `/` removed, joined with the repository. |
| `Repo.FirstSome` | src/repo.rs:15-38 | The first present candidate. `None` only when all are absent. |
| `Repo.ResolveIsFirstCandidate` | src/repo.rs:15-38 | The base is the first available of: the GitHub pair, the GitLab CI pair, the Bitbucket origin (normalised), the Bitbucket full name, the origin remote (normalised). |
| `Repo.TagUrl` | src/repo.rs:40-51 | The shape is picked by the first host substring that matches: `github.com`, `gitlab`, `bitbucket.org`, else the generic form. The URL starts with the base and ends with the tag. |
| `TimeFmt.ParseI32` | src/timefmt.rs:26-27 | Accepted exactly when the text after an optional `+` or `-` is a non-empty run of digits whose signed value fits in `i32`. The value is that signed value. |
| `TimeFmt.ParseI32Signed` | src/timefmt.rs:26-27 | No sign, `+` or `-` followed by digits parses to the digits' value, negated after `-`, when it fits in `i32`. |
| `TimeFmt.ParseI32RoundTrip` | src/timefmt.rs:26-27 | Every `i32`, printed in decimal with an optional sign, parses back to itself. |
| `TimeFmt.Wrap32` | src/timefmt.rs:28 | `i32` wrap-around: the result is in range, and in-range values are unchanged. |
| `TimeFmt.OffsetFields` | src/timefmt.rs:20-27 | `None` without `:` or without a leading sign. Otherwise a sign of ±1 and two `i32` values. |
| `TimeFmt.OffsetFieldsOf` | src/timefmt.rs:20-27 | `[sign] hh : mm` splits into exactly the sign and the parsed hour and minute. |
| `TimeFmt.FixedSecondsAsWritten` | src/timefmt.rs:20-29 | The offset as the code computes it, with wrapping `i32` products. It is accepted exactly when the fields parse and the wrapped value lies strictly within a day, and then it is that wrapped value. |
| `TimeFmt.FixedSeconds` | src/timefmt.rs:20-29 | The offset with exact arithmetic. It is accepted exactly when the fields parse and `±(h·3600 + m·60)` lies strictly within a day. |
| `TimeFmt.Wrap32Shift` | src/timefmt.rs:28 | Adding a multiple of 2^32 does not change the 32-bit reading. |
| `TimeFmt.WrappedIsExactInRange` | src/timefmt.rs:28 | Inside a day the wrapping and the exact arithmetic agree. |
| `TimeFmt.FixedSecondsAgreeWhenValid` | src/timefmt.rs:20-29 | Whenever the exact offset is valid, the code as written returns the same offset. |
| `TimeFmt.FixedSecondsWrapsOnOverflow` | src/timefmt.rs:26-29 | `+1193047:00` wraps to 1904 seconds and is accepted as written; the exact offset rejects it. |
| `TimeFmt.ParseTz` | src/timefmt.rs:12-42 | Unset means `local`. The setting is trimmed and lower-cased; `local`, `utc` and `source` are recognised; `fixed:` takes the offset when it is valid; everything else is `Local`. |
| `TimeFmt.ParseTzAsWritten` | src/timefmt.rs:12-42 | `TzMode::parse` as written: the same as `ParseTz`, with the offset computed in wrapping `i32` arithmetic. |
| `TimeFmt.ParseTzAsWrittenDiffers` | src/timefmt.rs:18-34 | The two parsers agree except where the code as written picks a fixed offset and the corrected one falls back to `Local`. |
| `TimeFmt.ParseTzOverflowExample` | src/timefmt.rs:18-34 | `fixed:+1193047:00` is a fixed offset of 1904 seconds as written, and `Local` when corrected. |
| `TimeFmt.ParseTzNames` | src/timefmt.rs:13-17 | `local`, `utc` and `source` are recognised in any case and with surrounding whitespace. Unset is `Local`. |
| `TimeFmt.ParseTzFixed` | src/timefmt.rs:18-30 | `fixed:+HH:MM` is `HH·3600 + MM·60` seconds east, and `-` negates it. |
| `TimeFmt.ParseTzMinutesUnchecked` | src/timefmt.rs:26-28 | `fixed:+05:90` is accepted as 23 400 seconds: minutes are not range-checked. |
| `TimeFmt.FixedSecondsMalformedNumber` | src/timefmt.rs:26-27 | A non-numeric hour or minute gives no offset, so the mode is not fixed. |
| `TimeFmt.WrappedIsExactWhenSumFits` | src/timefmt.rs:28 | With non-negative fields whose sum `h·3600 + m·60` fits in `i32`, the wrapping arithmetic gives the exact value. |
| `TimeFmt.FixedSecondsOutOfRange` | src/timefmt.rs:28-34 | The intended half: the corrected parser rejects every offset of a day or more. The code as written rejects it too whenever `h·3600 + m·60` fits in `i32`. |
| `TimeFmt.InZone` | src/timefmt.rs:58-63 | Same instant in every mode. UTC has offset 0, `source` keeps the commit's offset, fixed uses its offset, local uses the host's offset. |
| `TimeFmt.FormatPattern` | src/timefmt.rs:65 | The pattern is `date + " " + time` trimmed: a slice of that string with only whitespace before and after it, and no whitespace at either of its own ends. |
| `TimeFmt.FormatPatternNoDate` | src/timefmt.rs:65 | With an empty date format the separating space is trimmed and the pattern is the time format alone. |
| `TimeFmt.FormatPatternShapes` | src/timefmt.rs:65 | With both formats set the pattern is `date + " " + time`. With an empty time format it is the date format alone. |
| `TimeFmt.FormatCommitDatetime` | src/timefmt.rs:47-67 | `unknown` when the raw timestamp does not parse. Otherwise the instant is formatted in the zone that the `timezone` setting selects. |
| `Book.Chapter.constructor` | src/chapters.rs:3-13 | A chapter over disjoint, valid sub-items is a valid tree. |
| `Book.PreOrderExactlyOnce` | src/chapters.rs:8-11 | The pre-order starts with the chapter itself, lists exactly the tree's chapters, and lists none twice. |
| `Book.ItemsPreOrderBeforeItem` | src/chapters.rs:9-11 | Chapters listed for earlier siblings do not belong to a later sibling. |
| `Page.JoinPath` | src/processor.rs:88 | The joined path ends with the chapter path. An absolute path (or an empty directory) replaces the directory. Otherwise they are joined with exactly one `/`. |
| `Page.GitPath` | src/processor.rs:88-89 | The path handed to git is the joined path with every backslash turned into `/` and every other character kept. |
| `Page.Facts` | src/processor.rs:91-113 | The short hash, long hash and raw date come from `git log -1 --format=%h`, `%H` and `%cI` on the branch and the chapter's git path. A failed query gives `""`. The date is formatted by `FormatCommitDatetime`. |
| `Page.Render` | src/processor.rs:146-156 | A template without `{{` renders to itself. The template `{{branch}}` renders to the displayed branch: the link to its tree page when links are on and the base is known, else the plain name. |
| `Page.HeaderHtml` | src/processor.rs:158-160 | A `<header class="gitinfo-header">` element with the header style around the rendered header template. A template without `{{` appears verbatim. |
| `Page.FooterHtml` | src/processor.rs:167-169 | A `<footer class="gitinfo-footer">` element with the footer style around the rendered footer template. A template without `{{` appears verbatim. |
| `Page.AnchorParts` | src/processor.rs:119-120 | The link target and text are recovered from an anchor. |
| `Page.HashBranchDisplay` | src/processor.rs:115-124 | The hash links to `base/commit/<long>` and the branch to `base/tree/<branch>` when links are on and a base is known. Otherwise both are plain text. |
| `Page.TagDisplay` | src/processor.rs:126-135 | The tag is `-` when links are off, the tag is empty, or it is git's "No tags found". It is a link to the provider's tag page when a base is known, and the bare tag otherwise. |
| `Page.ReplaceContributors` | src/processor.rs:138-144 | Every token is replaced by the contributors HTML, or by nothing when contributors are off. Content without the token is unchanged. |
| `Page.ReplaceContributorsNotIdempotent` | src/processor.rs:138-144 | A single replacement can create a new token: the token split around another token becomes a token, then the empty string. |
| `Page.InsertHeader` | src/processor.rs:158-165 | The result starts with `html\n\n`. It is prepended only when the content does not already start with it. |
| `Page.InsertFooter` | src/processor.rs:167-177 | The result starts with the old content and contains the footer. If the footer is already there nothing changes. Otherwise it is `content + prefix + html + "\n"`, where the prefix gives at least one blank line before the footer. |
| `Page.DecoratePage` | src/processor.rs:87-177 | A chapter without a path is unchanged. Otherwise the result is the content with the token replaced, with at most the header block and a blank line in front and at most a blank line, the footer block and a newline behind. With the header on, it starts with the header block. With the footer on, it contains the footer block. With neither, only the token is replaced. |
| `Page.DecoratePageIdempotent` | src/processor.rs:138-177 | When no token is left, decorating a decorated chapter again changes nothing. |
| `Page.DecorateContent` | src/processor.rs:137-177 | The chapter text is kept: the result is the content with the token replaced, preceded by nothing or the header block and a blank line, and followed by nothing or a newline or blank line, the footer block and a newline. With a header block, the result starts with it and a blank line. With a footer block, the result contains it. With neither, only the token is replaced. |
| `Page.DecorateContentIdempotent` | src/processor.rs:138-177 | When the result holds no token, running the three content steps on it again changes nothing. |
| `Page.DecorateChapterContent` | src/processor.rs:137-177 | The in-place updates of `ch.content` (replace, prefix, three appends) leave exactly `DecorateContent` of the old content. |
| `Page.ProcessChapter` | src/processor.rs:87-177 | A chapter with a path gets the content steps with its header block (rendered only when the header is on) and its footer block (likewise). Every chapter ends with exactly `DecoratePage` of its old content. |
| `Legacy.RenderTemplateLegacy` | src/main.rs:194-208 | A template without `{{` renders to itself, whatever the five values are. |
| `Legacy.LegacyRender` | src/main.rs:55-106 | A template without `{{` is the rendered text whatever git and the clock return. |
| `Legacy.RenderTemplateExtendsLegacy` | src/main.rs:194-208 | The current rendering is the older one followed by the `{{branch}}` pass. |
| `Legacy.LegacyLeavesBranchToken` | src/main.rs:202-207 | The older rendering leaves `{{branch}}` untouched. |
| `Legacy.LegacyRenderExample` | src/main.rs:227-237 | `Commit: {{hash}} on {{date}}` with `abcd123` and `2025-06-24` renders to `Commit: abcd123 on 2025-06-24`. |
| `Legacy.Utf8Encode3` | src/main.rs:45 | A three-byte UTF-8 encoding whose bits give back the code point. |
| `Legacy.Cp1252Char` | src/main.rs:45 | Windows-1252 decoding agrees with Latin-1 outside 0x80–0x9F. |
| `Legacy.SeparatorAsWrittenIsMisdecodedBullet` | src/main.rs:45 | The default separator as written is the UTF-8 bytes of `•` decoded as Windows-1252, `â€¢`. It is not the documented ` • `. |
| `Legacy.LegacySeparatorAsWritten` | src/main.rs:45 | A configured separator is used as is. Without one, the as-written `" â€¢ "` is used, which differs from the documented default. |
| `Legacy.LegacySettings` | src/main.rs:41-47 | The older defaults: template `{{date}}{{sep}}commit: {{hash}}`, `0.8em`, separator ` • ` (corrected), `%Y-%m-%d`, `%H:%M:%S`. |
| `Legacy.DefaultSeparatorsAgree` | src/main.rs:45 | With the correction, the older version's default separator is the documented ` • ` that the current version uses. |
| `Legacy.LegacyDate` | src/main.rs:88-96 | `unknown` when the raw date does not parse. Otherwise the local-time date and time, each formatted separately and joined by a space. |
| `Legacy.LegacyFooter` | src/main.rs:109-117 | Exactly `<footer><span class="gitinfo-footer" style="font-size:F;padding:4px;margin:0.5em 0;text-align:right;display:block;">R</span></footer>`. It contains the rendered text. |
| `Legacy.LegacyDecorate` | src/main.rs:53-123 | A chapter without a path is unchanged. Otherwise the result contains the footer. It is appended after `\n` only when it is not already there. |
| `Legacy.LegacyDecorateIdempotent` | src/main.rs:120-123 | Decorating twice is decorating once, unconditionally. |
| `Legacy.LegacyProcessChapter` | src/main.rs:52-124 | The two in-place appends leave exactly `LegacyDecorate` of the old content. |
| `Legacy.SupportsOnlyHtml` | src/main.rs:132-134 | Only the renderer `html` is supported, exactly as spelled. The current version agrees (src/processor.rs:185). |
| `Chapters.Decorated` | src/chapters.rs:3-13 | Either decoration leaves a chapter without a path unchanged. |
| `Chapters.DecoratedIdempotent` | src/chapters.rs:3-13 | Applying the closure twice equals applying it once: always for the older one, and for the current one when no token is left. |
| `Chapters.Apply` | src/chapters.rs:8 | Calling the closure on one chapter sets its content to `spec` of its path and old content, for any `spec` that agrees with the decoration everywhere. |
| `Chapters.DecorateChapters` | src/chapters.rs:3-13 | Items other than chapters are untouched, and a chapter is visited before its sub-items. The visit order is the tree's pre-order, so every chapter at every depth is visited once, siblings in order. Each chapter of the tree ends with `spec` of its path and old content, for any `spec` that agrees with the decoration. Nothing outside the tree changes, and the tree shape is fixed. |
| `Chapters.DecorateBook` | src/chapters.rs:9-11 | Walks each item of a sequence in order: a chapter's sub-items, and the book's top-level items (src/processor.rs:84-85, src/main.rs:51-52). The visit order is the pre-order of the whole sequence, and every chapter of every item ends decorated. |
| `Chapters.ItemsPreOrderIsBookPreOrder` | src/chapters.rs:9-11 | The pre-order of a chapter's first `n` sub-items is the pre-order of that prefix taken as a sequence of items. |
| `Processor.ContributorTitle` | src/processor.rs:28-32 | The title is `Contributors` when unset or blank. Otherwise it is the configured title, untrimmed. |
| `Processor.Filter` | src/processor.rs:67-70 | A user is kept exactly when they are in the list and not excluded, and the list never grows. |
| `Processor.FilterAppend` | src/processor.rs:67-70 | Filtering distributes over concatenation, so order is kept. |
| `Processor.FilterNothingExcluded` | src/processor.rs:67-70 | With nobody excluded the list is unchanged. |
| `Processor.ContributorsHtml` | src/processor.rs:64-81 | `None` when contributors are off. `Some("")` when the shortlog fails. Otherwise the rendered filtered list under the title. |
| `Processor.ConfiguredTag` | src/processor.rs:53 | Present exactly when the configured tag is non-blank, and then trimmed. |
| `Processor.ResolvedTag` | src/processor.rs:53-57 | A non-blank configured tag, trimmed, wins. Otherwise the latest tag of the configured branch, looked up before the branch is verified. |
| `Processor.Settings` | src/processor.rs:23-83 | The branch falls back to `main` when verification fails. The repository base is looked up only with hyperlinks on. The header is off unless set, and the footer on unless unset. Templates, alignment and margins come from `Layout`. The documented defaults are used for font size, separator, date and time formats. |
| `Processor.ResolveSettings` | src/processor.rs:23-83 | The imperative resolution, with the mutable branch reassigned after verification, yields exactly `Settings`. |
| `Processor.UnknownBranchFallsBack` | src/processor.rs:50-62 | An unverified branch becomes `main`, while the tag is still looked up on the configured branch. |
| `Processor.Run` | src/processor.rs:22-183 | A missing configuration counts as all defaults. `enable = false` leaves every chapter unchanged. Otherwise every chapter, in pre-order, gets `DecoratePage` with the resolved settings. |
| `Processor.LegacyRun` | src/main.rs:37-129 | A missing configuration is the error `Missing or invalid [preprocessor.gitinfo] config` with nothing changed. Otherwise every chapter gets the older footer. |
| `Theme.EnsureHtmlTable` | src/theme.rs:47-53 | `[output]` and `[output.html]` exist afterwards. Existing tables and other keys are untouched, and missing ones are created empty. |
| `Theme.NormalizeCss` | src/theme.rs:56-95 | An absent or none entry becomes `[path]`. An array gets the path appended at the end unless it already holds it. A string `s` becomes `[s]` or `[s, path]`. Any other kind is an error, and only then. Every success contains the path. |
| `Theme.NormalizeCssKeepsEntries` | src/theme.rs:65-70 | Existing entries keep their order. At most one entry is added, and it is the path, only when the path was missing. |
| `Theme.NormalizeCssIdempotent` | src/theme.rs:56-95 | Normalising a normalised list changes nothing. |
| `Theme.NormalizeDoc` | src/theme.rs:47-95 | An error exactly when `additional-css` is of another kind. Otherwise only that entry changes, to the normalised array. |
| `Theme.NormalizeDocIdempotent` | src/theme.rs:47-95 | A normalised document normalises to itself. |
| `Theme.AssetFs.constructor` | src/theme.rs:18-31 | The book root starts with the given files. |
| `Theme.AssetFs.EnsureCssFile` | src/theme.rs:18-31 | Afterwards the stylesheet holds the given contents. It was written exactly when it was missing or different. |
| `Theme.AssetFs.EnsureBookTomlAdditionalCss` | src/theme.rs:34-105 | No `book.toml` is success with nothing written. An unparsable file or an `additional-css` of another kind is an error with nothing written. Otherwise the normalised document is written only when its text differs. The new files are `BookTomlAfter` of the old ones. |
| `Theme.BookTomlAfter` | src/theme.rs:34-105 | The `book.toml` step leaves every other file and the set of files alone. `book.toml` becomes the printed normalised document when it parses and normalises. With no `book.toml`, an unparsable one, or an `additional-css` of another kind, nothing changes. |
| `Theme.AssetFs.EnsureGitinfoAssets` | src/theme.rs:8-16 | The stylesheet holds the contents afterwards, and no file other than the stylesheet and `book.toml` changes. The new files are `BookTomlAfter` of the old ones with the stylesheet written, so `book.toml` is rewritten exactly as `EnsureBookTomlAdditionalCss` does, and left as it was on an error. |
| `Theme.SecondRunWritesNothing` | src/theme.rs:97-102 | When printing and parsing round-trip, a second run finds the document normalised and prints the same text, so it writes nothing. |

## Left out

- Running git (src/git.rs:46-63) is an input function. Its trimming of standard output and its error cases are inside that function.
- `verify_branch`, `latest_tag_for_branch`, `get_contributor_usernames_from_shortlog` and `render_contributors_html` are not part of this model. They are inputs of `Processor.Host`.
- chrono's RFC 3339 parsing, time-zone conversion and strftime formatting are the `TimeFmt.Clock` input. The `FixedOffset::east_opt` range is written out as `TimeFmt.ValidOffset`.
- Reading environment variables is the `Repo.Env` map.
- `load_config` (src/config.rs:125-130) and serde are not modelled. `Processor.Run` and `Processor.LegacyRun` take the configuration as `Option`, where `None` stands for missing or invalid. The configuration struct follows the shape `src/layout.rs` reads (`message`, `align`, `margin`), not the older struct in src/config.rs.
- The command line, `handle_preprocessing`, `handle_supports`, the mdBook JSON on standard input and output, and `process::exit` (src/main.rs:137-192) are not modelled. Only `supports_renderer` is.
- `Chapters.DecorateBook` walks only the top-level items of the book. mdBook's `Book::for_each_mut` also hands every nested item to the closure, so a nested chapter is decorated once per enclosing level. Those repeated passes change nothing whenever `Chapters.DecoratedIdempotent` applies, that is, always for the older version and whenever no contributors token is left for the current one. `for_each_mut` also hands an item's sub-items to the closure before the item itself, so the program's first pass over a nested chapter comes before its parent's pass, not in the pre-order that `Processor.Run` describes. The final contents do not depend on this order: each chapter's decoration reads only its own path and content and the settings resolved before the walk.
- The `[mdbook-gitinfo] Warning` and `[gitinfo] Warning` messages on standard error are not modelled.
- Filesystem details are not modelled. `create_dir_all`, I/O errors on write, and the difference between a missing and an unreadable stylesheet are outside the `Theme.AssetFs` map: both lead to a write.
- The `toml_edit` document is modelled only as far as `output.html.additional-css`. An `output` or `output.html` that exists but is not a table (which panics in the code) is not modelled.
- `Page.JoinPath` models Unix paths only. Windows prefixes and drive letters are out of scope.
- `TimeFmt.ParseTz` models the corrected offset arithmetic, and so do `TimeFmt.FormatCommitDatetime` and `Processor.Run`, which use it. The code as written is `TimeFmt.ParseTzAsWritten`. The two differ only on hour counts whose product wraps (`TimeFmt.ParseTzAsWrittenDiffers`), such as `fixed:+1193047:00`, which the code treats as +00:31:44.
- `Processor.LegacyRun` uses the corrected default separator ` • ` (`Legacy.LegacySettings`). The code as written prints `â€¢` when no separator is set (`Legacy.LegacySeparatorAsWritten`).
- `TimeFmt.FixedSecondsOutOfRange` proves the rejection of an offset of a day or more for the corrected parser. For the code as written it proves it only when `h·3600 + m·60` fits in `i32`, because larger hour counts can wrap back into range (`TimeFmt.FixedSecondsWrapsOnOverflow`).
- `TimeFmt.FixedSecondsAsWritten` does not model the panic that a debug build raises on `i32` overflow. It models the release build's wrap-around.
- `Theme.AssetFs.EnsureBookTomlAdditionalCss`: the error text of an unparsable `book.toml` is shortened to `invalid book.toml`, because the parser's debug output is not modelled.

## Findings

| source | as written | input that shows it | evidently intended | confidence | as-written member | corrected member |
|---|---|---|---|---|---|---|
| src/main.rs:45 | The default separator literal is `" â€¢ "`: the UTF-8 bytes of `•` read as Windows-1252. | No `separator` setting, with the default template `{{date}}{{sep}}commit: {{hash}}`. The footer shows `â€¢` between date and commit. | `" • "`, as documented at src/config.rs:57 and used at src/processor.rs:47 | not executed | `Legacy.LegacySeparatorAsWritten` (shown by `Legacy.SeparatorAsWrittenIsMisdecodedBullet`) | `Legacy.LegacySettings` (with `Legacy.DefaultSeparatorsAgree`) |
| src/timefmt.rs:26-29 | `h * 3600` is `i32` arithmetic. In a release build a huge hour count wraps around, and the wrapped value can pass `east_opt`. | `timezone = "fixed:+1193047:00"`: 1193047·3600 wraps to 1904, so the mode is a fixed offset of +00:31:44. | Reject it: the offset is far beyond a day. `Local` is used, with the warning. | not executed | `TimeFmt.FixedSecondsAsWritten` and `TimeFmt.ParseTzAsWritten` (shown by `TimeFmt.FixedSecondsWrapsOnOverflow` and `TimeFmt.ParseTzOverflowExample`) | `TimeFmt.FixedSeconds` and `TimeFmt.ParseTz` (with `TimeFmt.FixedSecondsAgreeWhenValid` and `TimeFmt.ParseTzAsWrittenDiffers`) |
