/** Layout resolution: turns the optional, partially specified message,
    alignment and margin settings into concrete strings for the header and
    the footer. Every path ends in a value; nothing here can fail. */
module Layout {
  import opened Wrappers
  import opened Config

  const DefaultMessage := "{{date}}{{sep}}commit: {{hash}}"
  const DefaultAlign := "center"

  /** A resolved margin: top, right, bottom, left. */
  type Margin = m: seq<string> | |m| == 4 witness ["0", "0", "0", "0"]

  const ZeroMargin: Margin := ["0", "0", "0", "0"]
  const DefaultPlacementMargin: Margin := ["0", "0", "2em", "0"]

  /** The first value present in `candidates`, or `default` when none is:
      the reading of a chain of `or_else` calls ending in `unwrap_or`. */
  function FirstPresent(candidates: seq<Option<string>>, default: string): string {
    if |candidates| == 0 then default
    else if candidates[0].Some? then candidates[0].value
    else FirstPresent(candidates[1..], default)
  }

  /** `FirstPresent` of two and three candidates, unfolded. */
  lemma FirstPresentUnfold(x: Option<string>, y: Option<string>, z: Option<string>, default: string)
    ensures FirstPresent([x, y], default) == x.OrElse(y).GetOr(default)
    ensures FirstPresent([x, y, z], default) == x.OrElse(y).OrElse(z).GetOr(default)
  {
    assert [y][1..] == [] && [z][1..] == [];
    assert FirstPresent([y], default) == y.GetOr(default);
    assert FirstPresent([z], default) == z.GetOr(default);
    assert [x, y][1..] == [y];
    assert [y, z][1..] == [z];
    assert FirstPresent([y, z], default) == y.OrElse(z).GetOr(default);
    assert [x, y, z][1..] == [y, z];
  }

  /** `resolve_messages`: (header template, footer template). */
  function ResolveMessages(cfg: GitInfoConfig): (r: (string, string))
    ensures var header := if cfg.message.Some? then cfg.message.value.header else None;
      var both := if cfg.message.Some? then cfg.message.value.both else None;
      && (header.Some? ==> r.0 == header.value)
      && (header.None? && both.Some? ==> r.0 == both.value)
      && (header.None? && both.None? && cfg.template.Some? ==> r.0 == cfg.template.value)
      && (header.None? && both.None? && cfg.template.None? ==> r.0 == DefaultMessage)
    ensures var footer := if cfg.message.Some? then cfg.message.value.footer else None;
      var both := if cfg.message.Some? then cfg.message.value.both else None;
      && (footer.Some? ==> r.1 == footer.value)
      && (footer.None? && both.Some? ==> r.1 == both.value)
      && (footer.None? && both.None? && cfg.template.Some? ==> r.1 == cfg.template.value)
      && (footer.None? && both.None? && cfg.template.None? ==> r.1 == DefaultMessage)
  {
    var both := if cfg.message.Some? then cfg.message.value.both else None;
    var header := (if cfg.message.Some? then cfg.message.value.header else None)
      .OrElse(both).OrElse(cfg.template).GetOr(DefaultMessage);
    var footer := (if cfg.message.Some? then cfg.message.value.footer else None)
      .OrElse(both).OrElse(cfg.template).GetOr(DefaultMessage);
    (header, footer)
  }

  /** Each placement takes the first present value of its own field, `both`
      and `template`, independently of the other placement. */
  lemma ResolveMessagesIsFirstPresent(cfg: GitInfoConfig)
    ensures var m := cfg.message;
      ResolveMessages(cfg).0 == FirstPresent([if m.Some? then m.value.header else None,
                                              if m.Some? then m.value.both else None,
                                              cfg.template], DefaultMessage)
    ensures var m := cfg.message;
      ResolveMessages(cfg).1 == FirstPresent([if m.Some? then m.value.footer else None,
                                              if m.Some? then m.value.both else None,
                                              cfg.template], DefaultMessage)
  {
    var m := cfg.message;
    FirstPresentUnfold(if m.Some? then m.value.header else None, if m.Some? then m.value.both else None, cfg.template, DefaultMessage);
    FirstPresentUnfold(if m.Some? then m.value.footer else None, if m.Some? then m.value.both else None, cfg.template, DefaultMessage);
  }

  /** Changing the header message never changes the resolved footer, and the
      other way round. */
  lemma ResolveMessagesIndependent(cfg: GitInfoConfig, h: Option<string>, f: Option<string>)
    requires cfg.message.Some?
    ensures ResolveMessages(cfg.(message := Some(cfg.message.value.(header := h)))).1 == ResolveMessages(cfg).1
    ensures ResolveMessages(cfg.(message := Some(cfg.message.value.(footer := f)))).0 == ResolveMessages(cfg).0
  {
  }

  /** `resolve_align`: (header alignment, footer alignment). */
  function ResolveAlign(a: Option<AlignSetting>): (r: (string, string))
    ensures a.None? ==> r == (DefaultAlign, DefaultAlign)
    ensures a.Some? && a.value.One? ==> r == (a.value.value, a.value.value)
    ensures a.Some? && a.value.Split? ==>
      && r.0 == FirstPresent([a.value.header, a.value.both], DefaultAlign)
      && r.1 == FirstPresent([a.value.footer, a.value.both], DefaultAlign)
  {
    match a
    case Some(One(s)) => (s, s)
    case Some(Split(header, footer, both)) =>
      FirstPresentUnfold(header, both, None, DefaultAlign);
      FirstPresentUnfold(footer, both, None, DefaultAlign);
      var bothV := both.GetOr(DefaultAlign);
      (header.GetOr(bothV), footer.GetOr(bothV))
    case None => (DefaultAlign, DefaultAlign)
  }

  /** The CSS `margin` shorthand for a list of one to four values: one value
      for all sides; two for vertical and horizontal; three for top,
      horizontal and bottom; four for top, right, bottom and left. */
  function CssShorthand(vs: seq<string>): Margin
    requires 1 <= |vs| <= 4
  {
    var top := vs[0];
    var right := if |vs| >= 2 then vs[1] else top;
    var bottom := if |vs| >= 3 then vs[2] else top;
    var left := if |vs| >= 4 then vs[3] else right;
    [top, right, bottom, left]
  }

  /** `margin_from_setting`: a setting resolved against a per-side fallback. */
  function MarginFromSetting(ms: MarginSetting, fallback: Margin): (r: Margin)
    ensures ms.One? ==> r == [ms.value, ms.value, ms.value, ms.value]
    ensures ms.Quad? && |ms.values| == 0 ==> r == fallback
    ensures ms.Quad? && |ms.values| >= 1 ==> r == CssShorthand(ms.values[..if |ms.values| < 4 then |ms.values| else 4])
    ensures ms.Sides? ==> r == [ms.top.GetOr(fallback[0]), ms.right.GetOr(fallback[1]),
                                ms.bottom.GetOr(fallback[2]), ms.left.GetOr(fallback[3])]
  {
    match ms
    case One(v) => [v, v, v, v]
    case Quad(vs) =>
      if |vs| == 0 then fallback
      else if |vs| == 1 then [vs[0], vs[0], vs[0], vs[0]]
      else if |vs| == 2 then [vs[0], vs[1], vs[0], vs[1]]
      else if |vs| == 3 then [vs[0], vs[1], vs[2], vs[1]]
      else [vs[0], vs[1], vs[2], vs[3]]
    case Sides(top, right, bottom, left) =>
      [top.GetOr(fallback[0]), right.GetOr(fallback[1]), bottom.GetOr(fallback[2]), left.GetOr(fallback[3])]
  }

  /** The list forms written out: `[v]`, `[a,b]`, `[t,h,b]`, and four or
      more values of which only the first four are used. */
  lemma MarginQuadShapes(fallback: Margin, a: string, b: string, c: string, d: string, rest: seq<string>)
    ensures MarginFromSetting(Quad([a]), fallback) == MarginFromSetting(MarginSetting.One(a), fallback) == [a, a, a, a]
    ensures MarginFromSetting(Quad([a, b]), fallback) == [a, b, a, b]
    ensures MarginFromSetting(Quad([a, b, c]), fallback) == [a, b, c, b]
    ensures MarginFromSetting(Quad([a, b, c, d] + rest), fallback) == [a, b, c, d]
  {
  }

  /** `resolve_margins`: the `both` base is resolved against all zeros; a
      present header or footer setting is resolved against that base; an
      absent one is `0 0 2em 0` whether or not `both` is set. */
  function ResolveMargins(m: Option<MarginConfig>): (r: (Margin, Margin))
    ensures var base := if m.Some? && m.value.both.Some? then MarginFromSetting(m.value.both.value, ZeroMargin) else ZeroMargin;
      && r.0 == (if m.Some? && m.value.header.Some? then MarginFromSetting(m.value.header.value, base) else DefaultPlacementMargin)
      && r.1 == (if m.Some? && m.value.footer.Some? then MarginFromSetting(m.value.footer.value, base) else DefaultPlacementMargin)
  {
    var both := if m.Some? then m.value.both else None;
    var base := if both.Some? then MarginFromSetting(both.value, ZeroMargin) else ZeroMargin;
    var header := if m.Some? && m.value.header.Some? then MarginFromSetting(m.value.header.value, base) else DefaultPlacementMargin;
    var footer := if m.Some? && m.value.footer.Some? then MarginFromSetting(m.value.footer.value, base) else DefaultPlacementMargin;
    (header, footer)
  }

  /** `both` alone never reaches a placement: with no header or footer
      setting both margins are `0 0 2em 0`. */
  lemma ResolveMarginsBothAlone(b: MarginSetting)
    ensures ResolveMargins(Some(MarginConfig(Some(b), None, None))) == (DefaultPlacementMargin, DefaultPlacementMargin)
  {
  }

  /** A per-side record fills its missing sides from `both`, and from zero
      when `both` is absent. */
  lemma ResolveMarginsSidesFromBoth(b: Option<MarginSetting>, top: string)
    ensures var base := if b.Some? then MarginFromSetting(b.value, ZeroMargin) else ZeroMargin;
      ResolveMargins(Some(MarginConfig(b, Some(Sides(Some(top), None, None, None)), None))).0
        == [top, base[1], base[2], base[3]]
    ensures ResolveMargins(Some(MarginConfig(None, Some(Sides(Some(top), None, None, None)), None))).0
        == [top, "0", "0", "0"]
  {
  }
}
