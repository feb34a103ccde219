/** The theme assets: the `theme/gitinfo.css` file and the
    `output.html.additional-css` entry of `book.toml` that points at it. The
    book root is a map from relative path to file text; TOML parsing and
    printing are inputs. */
module Theme {
  import opened Wrappers

  const CssRelPath := "theme/gitinfo.css"
  const BookTomlPath := "book.toml"

  /** A TOML value as far as this code looks at it: a string, or anything
      else (kept as written). */
  datatype TomlValue = Str(s: string) | NonString(text: string)

  /** What `output.html.additional-css` holds. */
  datatype CssItem =
    | Absent
    | NoneItem
    | ArrayItem(values: seq<TomlValue>)
    | StringItem(s: string)
    | OtherItem(typeName: string)

  datatype HtmlTable = HtmlTable(additionalCss: CssItem, otherKeys: map<string, TomlValue>)
  datatype OutputTable = OutputTable(html: Option<HtmlTable>, otherKeys: map<string, TomlValue>)
  datatype BookToml = BookToml(output: Option<OutputTable>, otherKeys: map<string, TomlValue>)

  /** `[output]` and `[output.html]` exist, empty when they were missing;
      nothing else changes. */
  function EnsureHtmlTable(doc: BookToml): (r: BookToml)
    ensures r.output.Some? && r.output.value.html.Some?
    ensures r.otherKeys == doc.otherKeys
    ensures doc.output.Some? ==> r.output.value.otherKeys == doc.output.value.otherKeys
    ensures doc.output.None? ==> r.output.value.otherKeys == map[]
    ensures doc.output.Some? && doc.output.value.html.Some? ==> r == doc
    ensures !(doc.output.Some? && doc.output.value.html.Some?) ==> r.output.value.html.value == HtmlTable(Absent, map[])
  {
    var output := doc.output.GetOr(OutputTable(None, map[]));
    var html := output.html.GetOr(HtmlTable(Absent, map[]));
    doc.(output := Some(output.(html := Some(html))))
  }

  /** The `additional-css` list after normalisation: a missing entry becomes
      a one-element list; a list gets the CSS path appended unless some
      element already is that string; a single string becomes a list of it,
      followed by the CSS path when it is not that path; any other kind of
      value is an error. */
  function NormalizeCss(item: CssItem): (r: Result<seq<TomlValue>, string>)
    ensures item.OtherItem? <==> r.Err?
    ensures r.Ok? ==> Str(CssRelPath) in r.value
    ensures item.Absent? || item.NoneItem? ==> r == Ok([Str(CssRelPath)])
    ensures item.ArrayItem? && Str(CssRelPath) in item.values ==> r == Ok(item.values)
    ensures item.ArrayItem? && Str(CssRelPath) !in item.values ==> r == Ok(item.values + [Str(CssRelPath)])
    ensures item.StringItem? ==>
      r == Ok(if item.s == CssRelPath then [Str(item.s)] else [Str(item.s), Str(CssRelPath)])
  {
    match item
    case Absent => Ok([Str(CssRelPath)])
    case NoneItem => Ok([Str(CssRelPath)])
    case ArrayItem(values) =>
      if Str(CssRelPath) in values then Ok(values) else Ok(values + [Str(CssRelPath)])
    case StringItem(s) =>
      var tail := if s != CssRelPath then [Str(CssRelPath)] else [];
      assert s != CssRelPath ==> [Str(s)] + tail == [Str(s), Str(CssRelPath)];
      assert s == CssRelPath ==> [Str(s)] + tail == [Str(s)];
      Ok([Str(s)] + tail)
    case OtherItem(typeName) =>
      Err("output.html.additional-css exists but is not a string or array (found: \"" + typeName + "\")")
  }

  /** Normalising a normalised list changes nothing. */
  lemma NormalizeCssIdempotent(item: CssItem)
    requires NormalizeCss(item).Ok?
    ensures NormalizeCss(ArrayItem(NormalizeCss(item).value)) == NormalizeCss(item)
  {
  }

  /** Existing list entries keep their order, and the CSS path appears at
      most once more than it did. */
  lemma NormalizeCssKeepsEntries(values: seq<TomlValue>)
    ensures var r := NormalizeCss(ArrayItem(values)).value;
      && r[..|values|] == values
      && |r| - |values| <= 1
      && (|r| > |values| ==> r[|values|] == Str(CssRelPath) && Str(CssRelPath) !in values)
  {
  }

  /** The whole document after the `additional-css` step. */
  function NormalizeDoc(doc: BookToml): (r: Result<BookToml, string>)
    ensures var html := EnsureHtmlTable(doc).output.value.html.value;
      && (r.Err? <==> html.additionalCss.OtherItem?)
      && (r.Ok? ==>
            && r.value.otherKeys == doc.otherKeys
            && r.value.output.Some? && r.value.output.value.html.Some?
            && r.value.output.value.html.value.additionalCss == ArrayItem(NormalizeCss(html.additionalCss).value)
            && r.value.output.value.html.value.otherKeys == html.otherKeys)
  {
    var d := EnsureHtmlTable(doc);
    var output := d.output.value;
    var html := output.html.value;
    match NormalizeCss(html.additionalCss)
    case Err(e) => Err(e)
    case Ok(values) => Ok(d.(output := Some(output.(html := Some(html.(additionalCss := ArrayItem(values)))))))
  }

  /** A normalised document is left as it is by a second normalisation. */
  lemma NormalizeDocIdempotent(doc: BookToml)
    requires NormalizeDoc(doc).Ok?
    ensures NormalizeDoc(NormalizeDoc(doc).value) == NormalizeDoc(doc)
  {
    var d := NormalizeDoc(doc).value;
    var html := EnsureHtmlTable(doc).output.value.html.value;
    NormalizeCssIdempotent(html.additionalCss);
    assert EnsureHtmlTable(d) == d;
  }

  /** The files after the `book.toml` step: the normalised document's text
      in place of `book.toml` when it parses and normalises, and the files
      as they were otherwise (no `book.toml`, unparsable, or an error).
      Writing the same text again leaves the map as it was. */
  function BookTomlAfter(files: map<string, string>, parse: string -> Option<BookToml>,
                         render: BookToml -> string): (r: map<string, string>)
    ensures r.Keys == files.Keys
    ensures forall p :: p in files && p != BookTomlPath ==> r[p] == files[p]
    ensures (BookTomlPath in files && parse(files[BookTomlPath]).Some?
             && NormalizeDoc(parse(files[BookTomlPath]).value).Ok?) ==>
      r[BookTomlPath] == render(NormalizeDoc(parse(files[BookTomlPath]).value).value)
    ensures (BookTomlPath !in files || parse(files[BookTomlPath]).None?
             || NormalizeDoc(parse(files[BookTomlPath]).value).Err?) ==> r == files
  {
    if BookTomlPath !in files then files
    else
      match parse(files[BookTomlPath])
      case None => files
      case Some(doc) =>
        match NormalizeDoc(doc)
        case Err(_) => files
        case Ok(d) => files[BookTomlPath := render(d)]
  }

  /** The files under the book root that the preprocessor may write. */
  class AssetFs {
    var files: map<string, string>

    constructor (files: map<string, string>)
      ensures this.files == files
    {
      this.files := files;
    }

    /** Writes the stylesheet unless it already holds exactly these
        contents; afterwards it does. */
    method EnsureCssFile(cssContents: string) returns (wrote: bool)
      modifies this
      ensures files == old(files)[CssRelPath := cssContents]
      ensures wrote <==> !(CssRelPath in old(files) && old(files)[CssRelPath] == cssContents)
    {
      if CssRelPath in files && files[CssRelPath] == cssContents {
        wrote := false;
      } else {
        files := files[CssRelPath := cssContents];
        wrote := true;
      }
    }

    /** Makes `output.html.additional-css` list the stylesheet. Without a
        `book.toml` nothing happens; an unparsable one or an
        `additional-css` of another kind is an error and nothing is written;
        otherwise the file is rewritten only when its printed text differs. */
    method EnsureBookTomlAdditionalCss(parse: string -> Option<BookToml>, render: BookToml -> string)
      returns (r: Result<(), string>)
      modifies this
      ensures BookTomlPath !in old(files) ==> r.Ok? && files == old(files)
      ensures BookTomlPath in old(files) && parse(old(files)[BookTomlPath]).None? ==> r.Err? && files == old(files)
      ensures BookTomlPath in old(files) && parse(old(files)[BookTomlPath]).Some? ==>
        var raw := old(files)[BookTomlPath];
        var res := NormalizeDoc(parse(raw).value);
        && (res.Err? ==> r == Err(res.error) && files == old(files))
        && (res.Ok? ==> r.Ok? && files == if render(res.value) == raw then old(files)
                                            else old(files)[BookTomlPath := render(res.value)])
      ensures files == BookTomlAfter(old(files), parse, render)
    {
      if BookTomlPath !in files {
        return Ok(());
      }
      var raw := files[BookTomlPath];
      var parsed := parse(raw);
      if parsed.None? {
        return Err("invalid book.toml");
      }
      var doc := parsed.value;
      doc := EnsureHtmlTable(doc);
      var output := doc.output.value;
      var html := output.html.value;
      match NormalizeCss(html.additionalCss) {
        case Err(e) =>
          return Err(e);
        case Ok(values) =>
          doc := doc.(output := Some(output.(html := Some(html.(additionalCss := ArrayItem(values))))));
      }
      var updated := render(doc);
      if updated != raw {
        files := files[BookTomlPath := updated];
      }
      r := Ok(());
    }

    /** Both steps, each one's failure only reported. */
    method EnsureGitinfoAssets(cssContents: string, parse: string -> Option<BookToml>, render: BookToml -> string)
      modifies this
      ensures CssRelPath in files && files[CssRelPath] == cssContents
      ensures forall p :: p in old(files) && p != CssRelPath && p != BookTomlPath ==> p in files && files[p] == old(files)[p]
      ensures files == BookTomlAfter(old(files)[CssRelPath := cssContents], parse, render)
    {
      var _ := EnsureCssFile(cssContents);
      var _ := EnsureBookTomlAdditionalCss(parse, render);
    }
  }

  /** When printing and parsing round-trip, a second run writes nothing:
      the document read back is already normalised and prints to the same
      text. */
  lemma SecondRunWritesNothing(raw: string, parse: string -> Option<BookToml>, render: BookToml -> string)
    requires parse(raw).Some? && NormalizeDoc(parse(raw).value).Ok?
    requires var d := NormalizeDoc(parse(raw).value).value; parse(render(d)) == Some(d)
    ensures var text := render(NormalizeDoc(parse(raw).value).value);
      NormalizeDoc(parse(text).value).Ok? && render(NormalizeDoc(parse(text).value).value) == text
  {
    NormalizeDocIdempotent(parse(raw).value);
  }
}
