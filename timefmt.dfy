/** Timezone handling for commit dates: parsing the `timezone` setting
    (`local`, `utc`, `source` or `fixed:±HH:MM`) into a mode, and formatting
    a commit's RFC 3339 timestamp in that mode. The date library itself
    (parsing, conversion, strftime) is an input: a `Clock`. */
module TimeFmt {
  import opened Wrappers
  import opened Strings

  /** The target timezone; a fixed offset is in seconds east of UTC. */
  datatype TzMode = Local | Utc | Source | Fixed(offset: int)

  const I32Min := -0x8000_0000
  const I32Max := 0x7FFF_FFFF

  /** The range `FixedOffset::east_opt` accepts: strictly within one day. */
  predicate ValidOffset(secs: int) {
    -86_400 < secs < 86_400
  }

  predicate IsDigit(c: char) {
    '0' <= c <= '9'
  }

  predicate AllDigits(s: string) {
    forall i :: 0 <= i < |s| ==> IsDigit(s[i])
  }

  /** The value of a string of decimal digits. */
  function DigitsValue(s: string): nat
    requires AllDigits(s)
    decreases |s|
  {
    if |s| == 0 then 0
    else DigitsValue(s[..|s| - 1]) * 10 + (s[|s| - 1] as int - '0' as int)
  }

  /** The text after an optional leading `+` or `-`. */
  function UnsignedPart(s: string): (r: string)
    ensures |r| == |s| || |r| == |s| - 1
    ensures r == s[|s| - |r|..]
  {
    if |s| > 0 && (s[0] == '+' || s[0] == '-') then s[1..] else s
  }

  /** The value of the digits after an optional sign, negated after `-`. */
  function SignedDigitsValue(s: string): (r: int)
    requires AllDigits(UnsignedPart(s))
    ensures r == DigitsValue(UnsignedPart(s)) || r == -(DigitsValue(UnsignedPart(s)) as int)
    ensures r < 0 ==> |s| > 0 && s[0] == '-'
  {
    if |s| > 0 && s[0] == '-' then -(DigitsValue(UnsignedPart(s)) as int) else DigitsValue(UnsignedPart(s))
  }

  /** `<i32 as FromStr>::from_str`: an optional `+` or `-`, then one or more
      decimal digits, and a value that fits in 32 bits. */
  function ParseI32(s: string): (r: Option<int>)
    ensures r.Some? <==> |UnsignedPart(s)| > 0 && AllDigits(UnsignedPart(s))
                         && I32Min <= SignedDigitsValue(s) <= I32Max
    ensures r.Some? ==> r.value == SignedDigitsValue(s)
    ensures r.Some? ==> I32Min <= r.value <= I32Max
    ensures r.Some? ==> |s| > 0 && (IsDigit(s[0]) || s[0] == '+' || s[0] == '-')
    ensures |s| > 0 && AllDigits(s) && DigitsValue(s) <= I32Max ==> r == Some(DigitsValue(s))
  {
    var signed := |s| > 0 && (s[0] == '+' || s[0] == '-');
    var digits := if signed then s[1..] else s;
    if |digits| == 0 || !AllDigits(digits) then None
    else
      var n: int := DigitsValue(digits);
      var v := if |s| > 0 && s[0] == '-' then -n else n;
      if I32Min <= v <= I32Max then Some(v) else None
  }

  /** The decimal spelling of a natural number, without leading zeros. */
  function DecimalString(n: nat): string
    decreases n
  {
    if n < 10 then [('0' as int + n) as char]
    else DecimalString(n / 10) + [('0' as int + n % 10) as char]
  }

  /** `DecimalString` spells a number that `DigitsValue` reads back. */
  lemma {:induction false} DecimalStringValue(n: nat)
    ensures |DecimalString(n)| > 0 && AllDigits(DecimalString(n))
    ensures DigitsValue(DecimalString(n)) == n
    decreases n
  {
    var s := DecimalString(n);
    if n >= 10 {
      DecimalStringValue(n / 10);
      assert s[..|s| - 1] == DecimalString(n / 10);
    }
  }

  /** An optional sign followed by digits parses to the signed value of the
      digits, when that value fits in 32 bits. */
  lemma {:induction false} ParseI32Signed(sign: string, d: string)
    requires sign == "" || sign == "+" || sign == "-"
    requires |d| > 0 && AllDigits(d)
    requires sign == "-" ==> DigitsValue(d) <= -I32Min
    requires sign != "-" ==> DigitsValue(d) <= I32Max
    ensures sign == "-" ==> ParseI32(sign + d) == Some(-(DigitsValue(d) as int))
    ensures sign != "-" ==> ParseI32(sign + d) == Some(DigitsValue(d))
  {
    var s := sign + d;
    if sign == "" {
      assert s == d && IsDigit(s[0]);
      assert UnsignedPart(s) == d;
    } else {
      assert s[0] == sign[0] && s[1..] == d;
      assert UnsignedPart(s) == d;
    }
    assert |UnsignedPart(s)| > 0 && AllDigits(UnsignedPart(s));
    if sign == "-" {
      assert SignedDigitsValue(s) == -(DigitsValue(d) as int);
    } else {
      assert SignedDigitsValue(s) == DigitsValue(d);
    }
    ParseI32Accepts(s);
  }

  /** Digits after an optional sign whose signed value fits are accepted
      with that value. */
  lemma {:induction false} ParseI32Accepts(s: string)
    requires |UnsignedPart(s)| > 0 && AllDigits(UnsignedPart(s))
    requires I32Min <= SignedDigitsValue(s) <= I32Max
    ensures ParseI32(s) == Some(SignedDigitsValue(s))
  {
  }

  /** Every 32-bit value, printed in decimal, parses back to itself. */
  lemma ParseI32RoundTrip(n: int)
    requires I32Min <= n <= I32Max
    ensures n >= 0 ==> ParseI32(DecimalString(n)) == Some(n)
    ensures n >= 0 ==> ParseI32("+" + DecimalString(n)) == Some(n)
    ensures ParseI32("-" + DecimalString(if n < 0 then -n else n)) == Some(if n < 0 then n else -n)
  {
    var m: nat := if n < 0 then -n else n;
    DecimalStringValue(m);
    var d := DecimalString(m);
    assert DigitsValue(d) == m;
    if n >= 0 {
      ParseI32Signed("", d);
      assert "" + d == d;
      ParseI32Signed("+", d);
    }
    ParseI32Signed("-", d);
  }

  /** The two's-complement reading of `x` in 32 bits: what `i32` arithmetic
      gives in a release build, where overflow wraps. */
  function Wrap32(x: int): (r: int)
    ensures I32Min <= r <= I32Max
    ensures I32Min <= x <= I32Max ==> r == x
  {
    (x - I32Min) % 0x1_0000_0000 + I32Min
  }

  /** The fields of a `±HH:MM` offset: the sign (`1` or `-1`), the hours
      and the minutes, each already parsed as an `i32`. */
  datatype OffsetParts = OffsetParts(sign: int, hours: int, minutes: int)

  /** The fields of `±HH:MM`; `None` when there is no `:`, the text before it
      is empty or does not start with a sign, or either number does not
      parse. */
  function OffsetFields(off: string): (r: Option<OffsetParts>)
    ensures ':' !in off ==> r.None?
    ensures |off| == 0 || (off[0] != '+' && off[0] != '-') ==> r.None?
    ensures r.Some? ==> (r.value.sign == 1 || r.value.sign == -1)
    ensures r.Some? ==> I32Min <= r.value.hours <= I32Max && I32Min <= r.value.minutes <= I32Max
  {
    match SplitOnce(off, ':')
    case None => None
    case Some((h, m)) =>
      if |h| == 0 || (h[0] != '+' && h[0] != '-') then None
      else
        assert h[0] == off[0];
        var sign := if h[0] == '+' then 1 else -1;
        match (ParseI32(h[1..]), ParseI32(m))
        case (Some(hv), Some(mv)) => Some(OffsetParts(sign, hv, mv))
        case _ => None
  }

  /** `[sign][hh]:[mm]` splits into exactly those fields when the hour part
      has no `:`. */
  lemma OffsetFieldsOf(sign: char, hh: string, mm: string)
    requires sign == '+' || sign == '-'
    requires ':' !in hh
    ensures OffsetFields([sign] + hh + ":" + mm) ==
      match (ParseI32(hh), ParseI32(mm))
      case (Some(h), Some(m)) => Some(OffsetParts(if sign == '+' then 1 else -1, h, m))
      case _ => None
  {
    var h := [sign] + hh;
    assert ':' !in h;
    SplitOnceJoin(h, mm, ':');
    assert [sign] + hh + ":" + mm == h + [':'] + mm;
    assert h[1..] == hh;
  }

  /** `sign * (h * 3600 + m * 60)` computed exactly (the sign is `1` or `-1`). */
  function ExactSeconds(p: OffsetParts): int {
    var magnitude := p.hours * 3600 + p.minutes * 60;
    if p.sign < 0 then -magnitude else magnitude
  }

  /** `sign * (h * 3600 + m * 60)` in `i32` arithmetic, every product, the
      sum and the sign change wrapping on overflow. */
  function WrappedSeconds(p: OffsetParts): (r: int)
    ensures I32Min <= r <= I32Max
  {
    var magnitude := Wrap32(Wrap32(p.hours * 3600) + Wrap32(p.minutes * 60));
    Wrap32(if p.sign < 0 then -magnitude else magnitude)
  }

  /** The offset in seconds as the source computes it: wrapping `i32`
      arithmetic, then the one-day range check. */
  function FixedSecondsAsWritten(off: string): (r: Option<int>)
    ensures r.Some? ==> ValidOffset(r.value)
    ensures r.Some? <==> OffsetFields(off).Some? && ValidOffset(WrappedSeconds(OffsetFields(off).value))
    ensures r.Some? ==> r.value == WrappedSeconds(OffsetFields(off).value)
  {
    match OffsetFields(off)
    case None => None
    case Some(p) => if ValidOffset(WrappedSeconds(p)) then Some(WrappedSeconds(p)) else None
  }

  /** The offset in seconds with the arithmetic done exactly, so that an hour
      count whose product overflows is rejected rather than wrapped into the
      valid range. */
  function FixedSeconds(off: string): (r: Option<int>)
    ensures r.Some? ==> ValidOffset(r.value)
    ensures r.Some? <==> OffsetFields(off).Some? && ValidOffset(ExactSeconds(OffsetFields(off).value))
    ensures r.Some? ==> r.value == ExactSeconds(OffsetFields(off).value)
  {
    match OffsetFields(off)
    case None => None
    case Some(p) => if ValidOffset(ExactSeconds(p)) then Some(ExactSeconds(p)) else None
  }

  /** Adding a multiple of 2^32 does not change the 32-bit reading. */
  lemma Wrap32Shift(x: int, k: int)
    ensures Wrap32(x + k * 0x1_0000_0000) == Wrap32(x)
  {
  }

  /** Each wrap keeps the value modulo 2^32, so the wrapped computation gives
      the exact value whenever the exact sum fits in 32 bits. */
  lemma WrappedIsExactInRange(p: OffsetParts)
    requires -86_400 < p.hours * 3600 + p.minutes * 60 < 86_400
    ensures WrappedSeconds(p) == ExactSeconds(p)
  {
    var a, b := p.hours * 3600, p.minutes * 60;
    var k1, k2 := (a - I32Min) / 0x1_0000_0000, (b - I32Min) / 0x1_0000_0000;
    assert Wrap32(a) == a - k1 * 0x1_0000_0000;
    assert Wrap32(b) == b - k2 * 0x1_0000_0000;
    Wrap32Shift(a + b, -k1 - k2);
    assert Wrap32(a) + Wrap32(b) == (a + b) + (-k1 - k2) * 0x1_0000_0000;
    assert Wrap32(Wrap32(a) + Wrap32(b)) == a + b;
  }

  /** Inside the valid range the exact and the wrapping arithmetic agree:
      only inputs whose exact offset is out of range tell the two apart. */
  lemma FixedSecondsAgreeWhenValid(off: string)
    requires FixedSeconds(off).Some?
    ensures FixedSecondsAsWritten(off) == FixedSeconds(off)
  {
    var p := OffsetFields(off).value;
    WrappedIsExactInRange(p);
  }

  /** `"1193047"` parses to 1193047. */
  lemma ParseHoursExample()
    ensures ParseI32("1193047") == Some(1_193_047)
    ensures ParseI32("00") == Some(0)
  {
    var hh := "1193047";
    assert AllDigits(hh);
    assert DigitsValue(hh[..1]) == 1;
    assert hh[..2][..1] == hh[..1];
    assert DigitsValue(hh[..2]) == 11;
    assert hh[..3][..2] == hh[..2];
    assert DigitsValue(hh[..3]) == 119;
    assert hh[..4][..3] == hh[..3];
    assert DigitsValue(hh[..4]) == 1193;
    assert hh[..5][..4] == hh[..4];
    assert DigitsValue(hh[..5]) == 11930;
    assert hh[..6][..5] == hh[..5];
    assert DigitsValue(hh[..6]) == 119304;
    assert hh[..6] == hh[..|hh| - 1];
    assert DigitsValue(hh) == 1193047;
    assert AllDigits("00") && DigitsValue("00"[..1]) == 0 && DigitsValue("00") == 0;
  }

  /** An hour count of 1193047 overflows `i32` when multiplied by 3600 and
      wraps to 1904 seconds, which the range check then accepts; the exact
      computation rejects it. */
  lemma FixedSecondsWrapsOnOverflow()
    ensures FixedSecondsAsWritten("+1193047:00") == Some(1904)
    ensures FixedSeconds("+1193047:00") == None
  {
    OverflowExampleFields();
    OverflowExampleWraps();
  }

  lemma OverflowExampleFields()
    ensures OffsetFields("+1193047:00") == Some(OffsetParts(1, 1_193_047, 0))
  {
    assert "+1193047:00" == ['+'] + "1193047" + ":" + "00";
    ParseHoursExample();
    OffsetFieldsOf('+', "1193047", "00");
  }

  lemma OverflowExampleWraps()
    ensures WrappedSeconds(OffsetParts(1, 1_193_047, 0)) == 1904
    ensures ExactSeconds(OffsetParts(1, 1_193_047, 0)) == 4_294_969_200
  {
    Wrap32Shift(1904, 1);
    assert 1_193_047 * 3600 == 1904 + 1 * 0x1_0000_0000;
  }

  /** The normalised setting: surrounding whitespace removed and ASCII
      letters lowered; an absent setting reads as `local`. */
  function NormaliseTz(s: Option<string>): string {
    AsciiLower(Trim(s.GetOr("local")))
  }

  /** `TzMode::parse`: an unrecognised name or an invalid fixed offset falls
      back to `Local`. */
  function ParseTz(s: Option<string>): (r: TzMode)
    ensures var raw := NormaliseTz(s);
      && (r == Utc <==> raw == "utc")
      && (r == Source <==> raw == "source")
      && (r.Fixed? <==> StartsWith(raw, "fixed:") && FixedSeconds(raw[6..]).Some?)
      && (r.Fixed? ==> r.offset == FixedSeconds(raw[6..]).value && ValidOffset(r.offset))
  {
    var raw := NormaliseTz(s);
    if raw == "local" then Local
    else if raw == "utc" then Utc
    else if raw == "source" then Source
    else if StartsWith(raw, "fixed:") then
      match FixedSeconds(raw[6..])
      case Some(secs) => Fixed(secs)
      case None => Local
    else Local
  }

  /** `TzMode::parse` with the offset computed as the source computes it,
      in wrapping `i32` arithmetic. */
  function ParseTzAsWritten(s: Option<string>): (r: TzMode)
    ensures var raw := NormaliseTz(s);
      && (r == Utc <==> raw == "utc")
      && (r == Source <==> raw == "source")
      && (r.Fixed? <==> StartsWith(raw, "fixed:") && FixedSecondsAsWritten(raw[6..]).Some?)
      && (r.Fixed? ==> r.offset == FixedSecondsAsWritten(raw[6..]).value && ValidOffset(r.offset))
  {
    var raw := NormaliseTz(s);
    if raw == "local" then Local
    else if raw == "utc" then Utc
    else if raw == "source" then Source
    else if StartsWith(raw, "fixed:") then
      match FixedSecondsAsWritten(raw[6..])
      case Some(secs) => Fixed(secs)
      case None => Local
    else Local
  }

  /** The two parsers differ only where the source's arithmetic wraps an
      out-of-range offset into range: the source then picks a fixed offset
      where the corrected parser falls back to `Local`. */
  lemma ParseTzAsWrittenDiffers(s: Option<string>)
    ensures ParseTz(s) != Local ==> ParseTzAsWritten(s) == ParseTz(s)
    ensures ParseTzAsWritten(s) != ParseTz(s) ==> ParseTz(s) == Local && ParseTzAsWritten(s).Fixed?
  {
    var raw := NormaliseTz(s);
    if StartsWith(raw, "fixed:") && FixedSeconds(raw[6..]).Some? {
      FixedSecondsAgreeWhenValid(raw[6..]);
      assert ParseTzAsWritten(s) == ParseTz(s);
    } else if raw == "utc" || raw == "source" {
      assert ParseTzAsWritten(s) == ParseTz(s);
    } else {
      assert ParseTz(s) == Local;
    }
  }

  /** `fixed:+1193047:00` is a fixed offset of 1904 seconds as written, and
      `Local` once the arithmetic is exact. */
  lemma ParseTzOverflowExample()
    ensures ParseTzAsWritten(Some("fixed:+1193047:00")) == Fixed(1904)
    ensures ParseTz(Some("fixed:+1193047:00")) == Local
  {
    OverflowSettingNormalised();
    FixedSecondsWrapsOnOverflow();
  }

  /** `fixed:+1193047:00` is its own normal form, and its offset text is
      `+1193047:00`. */
  lemma OverflowSettingNormalised()
    ensures NormaliseTz(Some("fixed:+1193047:00")) == "fixed:+1193047:00"
    ensures StartsWith("fixed:+1193047:00", "fixed:") && "fixed:+1193047:00"[6..] == "+1193047:00"
  {
    var off := "+1193047:00";
    assert NoUpper(off);
    NormalisedFixed(off, '0');
    assert "fixed:" + off == "fixed:+1193047:00";
  }

  predicate NoUpper(s: string) {
    forall i :: 0 <= i < |s| ==> !('A' <= s[i] <= 'Z')
  }

  /** Lowering a string with no upper-case ASCII letter changes nothing. */
  lemma AsciiLowerNoUpper(s: string)
    requires NoUpper(s)
    ensures AsciiLower(s) == s
  {
  }

  lemma NoUpperAppend(a: string, b: string)
    requires NoUpper(a) && NoUpper(b)
    ensures NoUpper(a + b)
  {
    forall i | 0 <= i < |a + b| ensures !('A' <= (a + b)[i] <= 'Z') {
      if i < |a| { assert (a + b)[i] == a[i]; } else { assert (a + b)[i] == b[i - |a|]; }
    }
  }

  lemma DigitsNoUpperNoColon(s: string)
    requires AllDigits(s)
    ensures NoUpper(s) && ':' !in s
  {
    forall i | 0 <= i < |s| ensures !('A' <= s[i] <= 'Z') && s[i] != ':' { assert IsDigit(s[i]); }
  }

  /** The three names are recognised in any case and with surrounding
      whitespace; an absent setting is `Local`. */
  lemma {:induction false} ParseTzNames(pad: string, name: string)
    requires forall i :: 0 <= i < |pad| ==> IsWhitespace(pad[i])
    requires |name| > 0 && !IsWhitespace(name[0]) && !IsWhitespace(name[|name| - 1])
    ensures AsciiLower(name) == "utc" ==> ParseTz(Some(pad + name + pad)) == Utc
    ensures AsciiLower(name) == "source" ==> ParseTz(Some(pad + name + pad)) == Source
    ensures AsciiLower(name) == "local" ==> ParseTz(Some(pad + name + pad)) == Local
    ensures ParseTz(None) == Local
  {
    TrimPadded(pad, name);
    assert NormaliseTz(Some(pad + name + pad)) == AsciiLower(name);
    UnsetIsLocal();
  }

  /** An absent setting normalises to `local`. */
  lemma UnsetIsLocal()
    ensures NormaliseTz(None) == "local"
  {
    LocalIsTrimmed();
    LocalIsLower();
  }

  /** `local` has no surrounding whitespace. */
  lemma LocalIsTrimmed()
    ensures Trim("local") == "local"
  {
    TrimNoop("local");
  }

  /** `local` is already lower-case. */
  lemma LocalIsLower()
    ensures AsciiLower("local") == "local"
  {
    assert NoUpper("local") by {
      forall i | 0 <= i < 5 ensures !('A' <= "local"[i] <= 'Z') {
      }
    }
    AsciiLowerNoUpper("local");
  }

  /** Trimming whitespace padding on both sides gives back the inner text. */
  lemma {:induction false} TrimPadded(pad: string, s: string)
    requires forall i :: 0 <= i < |pad| ==> IsWhitespace(pad[i])
    requires |s| > 0 && !IsWhitespace(s[0]) && !IsWhitespace(s[|s| - 1])
    ensures Trim(pad + s + pad) == s
  {
    TrimStartPadded(pad, s + pad);
    assert pad + s + pad == pad + (s + pad);
    TrimEndPadded(s, pad);
  }

  lemma {:induction false} TrimStartPadded(pad: string, s: string)
    requires forall i :: 0 <= i < |pad| ==> IsWhitespace(pad[i])
    requires |s| > 0 && !IsWhitespace(s[0])
    ensures TrimStart(pad + s) == s
    decreases |pad|
  {
    if |pad| == 0 {
      assert pad + s == s;
    } else {
      assert (pad + s)[1..] == pad[1..] + s;
      TrimStartPadded(pad[1..], s);
    }
  }

  lemma {:induction false} TrimEndPadded(s: string, pad: string)
    requires forall i :: 0 <= i < |pad| ==> IsWhitespace(pad[i])
    requires |s| > 0 && !IsWhitespace(s[|s| - 1])
    ensures TrimEnd(s + pad) == s
    decreases |pad|
  {
    if |pad| == 0 {
      assert s + pad == s;
    } else {
      assert (s + pad)[..|s + pad| - 1] == s + pad[..|pad| - 1];
      TrimEndPadded(s, pad[..|pad| - 1]);
    }
  }

  /** `fixed:+HH:MM` is `HH * 3600 + MM * 60` seconds east and `fixed:-HH:MM`
      the same west, for any digit strings whose offset is within a day;
      the minutes are not range-checked on their own. */
  lemma ParseTzFixed(sign: char, hh: string, mm: string)
    requires sign == '+' || sign == '-'
    requires |hh| > 0 && AllDigits(hh) && |mm| > 0 && AllDigits(mm)
    requires DigitsValue(hh) * 3600 + DigitsValue(mm) * 60 < 86_400
    ensures ParseTz(Some("fixed:" + [sign] + hh + ":" + mm)) ==
      Fixed(ExactSeconds(OffsetParts(if sign == '+' then 1 else -1, DigitsValue(hh), DigitsValue(mm))))
  {
    ParseTzFixedGrouped(sign, hh, mm);
    FixedPrefixRegroups(sign, hh, mm);
  }

  /** A signed `HH:MM` offset of decimal digits within a day. */
  ghost predicate OffsetDigits(sign: char, hh: string, mm: string) {
    && (sign == '+' || sign == '-')
    && |hh| > 0 && AllDigits(hh) && |mm| > 0 && AllDigits(mm)
    && DigitsValue(hh) * 3600 + DigitsValue(mm) * 60 < 86_400
  }

  /** `ParseTzFixed` with the offset text as one string. */
  lemma ParseTzFixedGrouped(sign: char, hh: string, mm: string)
    requires OffsetDigits(sign, hh, mm)
    ensures ParseTz(Some("fixed:" + ([sign] + hh + ":" + mm))) ==
      Fixed(ExactSeconds(OffsetParts(if sign == '+' then 1 else -1, DigitsValue(hh), DigitsValue(mm))))
  {
    var off := [sign] + hh + ":" + mm;
    var secs := ExactSeconds(OffsetParts(if sign == '+' then 1 else -1, DigitsValue(hh), DigitsValue(mm)));
    FixedOffsetText(sign, hh, mm);
    FixedOffsetSeconds(sign, hh, mm);
    ParseTzFixedOffset(off, mm[|mm| - 1], secs);
  }

  lemma FixedOffsetText(sign: char, hh: string, mm: string)
    requires OffsetDigits(sign, hh, mm)
    ensures var off := [sign] + hh + ":" + mm;
      NoUpper(off) && |off| > 0 && off[|off| - 1] == mm[|mm| - 1]
  {
    DigitsNoUpperNoColon(hh);
    DigitsNoUpperNoColon(mm);
    NoUpperAppend([sign], hh);
    NoUpperAppend([sign] + hh, ":");
    NoUpperAppend([sign] + hh + ":", mm);
  }

  lemma FixedOffsetSeconds(sign: char, hh: string, mm: string)
    requires OffsetDigits(sign, hh, mm)
    ensures FixedSeconds([sign] + hh + ":" + mm)
      == Some(ExactSeconds(OffsetParts(if sign == '+' then 1 else -1, DigitsValue(hh), DigitsValue(mm))))
  {
    var off := [sign] + hh + ":" + mm;
    var p := OffsetParts(if sign == '+' then 1 else -1, DigitsValue(hh), DigitsValue(mm));
    DigitsNoUpperNoColon(hh);
    OffsetFieldsOf(sign, hh, mm);
    assert ParseI32(hh) == Some(DigitsValue(hh));
    assert ParseI32(mm) == Some(DigitsValue(mm));
    assert OffsetFields(off) == Some(p);
    assert ValidOffset(ExactSeconds(p));
  }

  /** A lower-case `fixed:` value without surrounding whitespace gives the
      offset the offset parser computes, and `Local` when it rejects it. */
  lemma ParseTzFixedOffset(off: string, last: char, secs: int)
    requires |off| > 0 && off[|off| - 1] == last && !IsWhitespace(last) && NoUpper(off)
    requires FixedSeconds(off) == Some(secs)
    ensures ParseTz(Some("fixed:" + off)) == Fixed(secs)
  {
    NormalisedFixed(off, last);
  }

  /** `fixed:` followed by the pieces of an offset is `fixed:` followed by
      the whole offset. */
  lemma FixedPrefixRegroups(sign: char, hh: string, mm: string)
    ensures "fixed:" + [sign] + hh + ":" + mm == "fixed:" + ([sign] + hh + ":" + mm)
  {
  }

  /** A lower-case `fixed:` setting with no surrounding whitespace is its own
      normal form. */
  lemma NormalisedFixed(off: string, last: char)
    requires |off| > 0 && off[|off| - 1] == last && !IsWhitespace(last) && NoUpper(off)
    ensures NormaliseTz(Some("fixed:" + off)) == "fixed:" + off
    ensures StartsWith("fixed:" + off, "fixed:") && ("fixed:" + off)[6..] == off
  {
    var s := "fixed:" + off;
    assert s[0] == 'f' && s[|s| - 1] == last;
    TrimNoop(s);
    NoUpperAppend("fixed:", off);
    AsciiLowerNoUpper(s);
  }

  /** `fixed:+05:90` is accepted as 5 hours and 90 minutes. */
  lemma ParseTzMinutesUnchecked()
    ensures ParseTz(Some("fixed:+05:90")) == Fixed(23_400)
  {
    MinutesSettingDigits();
    var secs := ExactSeconds(OffsetParts(1, 5, 90));
    assert secs == 23_400;
    ParseTzFixed('+', "05", "90");
    MinutesSettingPieces();
  }

  /** The fields `05` and `90` are digits worth 5 and 90. */
  lemma MinutesSettingDigits()
    ensures AllDigits("05") && DigitsValue("05") == 5
    ensures AllDigits("90") && DigitsValue("90") == 90
  {
    assert DigitsValue("05"[..1]) == 0;
    assert DigitsValue("90"[..1]) == 9;
  }

  /** `fixed:+05:90` is built from the sign, `05`, `:` and `90`. */
  lemma MinutesSettingPieces()
    ensures "fixed:+05:90" == "fixed:" + ['+'] + "05" + ":" + "90"
  {
  }

  /** A sign followed by an hour or a minute that does not parse as an
      `i32` is rejected (a missing `:` or sign is rejected by
      `OffsetFields` itself). */
  lemma FixedSecondsMalformedNumber(sign: char, hh: string, mm: string)
    requires sign == '+' || sign == '-'
    requires ':' !in hh
    requires ParseI32(hh).None? || ParseI32(mm).None?
    ensures FixedSeconds([sign] + hh + ":" + mm).None?
  {
    OffsetFieldsOf(sign, hh, mm);
  }

  /** With non-negative fields whose exact sum fits in 32 bits, no step of
      the `i32` arithmetic wraps. */
  lemma WrappedIsExactWhenSumFits(p: OffsetParts)
    requires 0 <= p.hours && 0 <= p.minutes
    requires p.hours * 3600 + p.minutes * 60 <= I32Max
    ensures WrappedSeconds(p) == ExactSeconds(p)
  {
    var a, b := p.hours * 3600, p.minutes * 60;
    assert 0 <= a <= I32Max && 0 <= b <= I32Max;
    assert Wrap32(a) == a && Wrap32(b) == b;
    assert Wrap32(a + b) == a + b;
  }

  /** An offset of a day or more is rejected: always by the corrected
      parser, and by the parser as written whenever its arithmetic does not
      overflow. */
  lemma FixedSecondsOutOfRange(sign: char, hh: string, mm: string)
    requires sign == '+' || sign == '-'
    requires |hh| > 0 && AllDigits(hh) && |mm| > 0 && AllDigits(mm)
    requires DigitsValue(hh) <= I32Max && DigitsValue(mm) <= I32Max
    requires DigitsValue(hh) * 3600 + DigitsValue(mm) * 60 >= 86_400
    ensures FixedSeconds([sign] + hh + ":" + mm).None?
    ensures DigitsValue(hh) * 3600 + DigitsValue(mm) * 60 <= I32Max ==>
      FixedSecondsAsWritten([sign] + hh + ":" + mm).None?
  {
    DigitsNoUpperNoColon(hh);
    OffsetFieldsOf(sign, hh, mm);
    var p := OffsetParts(if sign == '+' then 1 else -1, DigitsValue(hh), DigitsValue(mm));
    assert OffsetFields([sign] + hh + ":" + mm) == Some(p);
    if DigitsValue(hh) * 3600 + DigitsValue(mm) * 60 <= I32Max {
      WrappedIsExactWhenSumFits(p);
    }
  }

  /** A point in time: seconds since the Unix epoch in UTC, and the offset
      (seconds east) it is displayed in. */
  datatype DateTime = DateTime(utcSeconds: int, offset: int)

  /** The date library as an input: RFC 3339 parsing, the host's local
      offset at an instant, and strftime-style formatting. */
  datatype Clock = Clock(
    parseRfc3339: string -> Option<DateTime>,
    localOffset: int -> int,
    format: (DateTime, string) -> string)

  /** The same instant, displayed in the zone the mode selects. */
  function InZone(clock: Clock, dt: DateTime, mode: TzMode): (r: DateTime)
    ensures r.utcSeconds == dt.utcSeconds
    ensures mode == Utc ==> r.offset == 0
    ensures mode == Source ==> r == dt
    ensures mode.Fixed? ==> r.offset == mode.offset
    ensures mode == Local ==> r.offset == clock.localOffset(dt.utcSeconds)
  {
    match mode
    case Utc => DateTime(dt.utcSeconds, 0)
    case Source => dt
    case Fixed(o) => DateTime(dt.utcSeconds, o)
    case Local => DateTime(dt.utcSeconds, clock.localOffset(dt.utcSeconds))
  }

  /** The strftime pattern: date format, a space, time format, trimmed. */
  function FormatPattern(dateFmt: string, timeFmt: string): (r: string)
    ensures |r| <= |dateFmt| + 1 + |timeFmt|
    ensures |r| > 0 ==> !IsWhitespace(r[0]) && !IsWhitespace(r[|r| - 1])
    ensures exists i :: CutBetweenWhitespace(dateFmt + " " + timeFmt, i, r)
  {
    TrimIsSlice(dateFmt + " " + timeFmt);
    Trim(dateFmt + " " + timeFmt)
  }

  /** With both formats set the pattern is `date time`; with an empty time
      format it is the date format alone (no trailing space). */
  lemma FormatPatternShapes(dateFmt: string, timeFmt: string)
    requires |dateFmt| > 0 && !IsWhitespace(dateFmt[0]) && !IsWhitespace(dateFmt[|dateFmt| - 1])
    ensures |timeFmt| > 0 && !IsWhitespace(timeFmt[0]) && !IsWhitespace(timeFmt[|timeFmt| - 1])
      ==> FormatPattern(dateFmt, timeFmt) == dateFmt + " " + timeFmt
    ensures FormatPattern(dateFmt, "") == dateFmt
  {
    var both := dateFmt + " " + timeFmt;
    if |timeFmt| > 0 && !IsWhitespace(timeFmt[0]) && !IsWhitespace(timeFmt[|timeFmt| - 1]) {
      assert both[0] == dateFmt[0] && both[|both| - 1] == timeFmt[|timeFmt| - 1];
      TrimNoop(both);
    }
    var dateOnly := dateFmt + " " + "";
    assert dateOnly == dateFmt + " " && dateOnly[0] == dateFmt[0];
    assert TrimStart(dateOnly) == dateOnly;
    TrimEndPadded(dateFmt, " ");
  }

  /** With an empty date format the separating space is trimmed away and the
      pattern is the time format alone. */
  lemma FormatPatternNoDate(timeFmt: string)
    requires |timeFmt| > 0 ==> !IsWhitespace(timeFmt[0]) && !IsWhitespace(timeFmt[|timeFmt| - 1])
    ensures FormatPattern("", timeFmt) == timeFmt
  {
    var s := "" + " " + timeFmt;
    assert s[1..] == timeFmt;
    assert TrimStart(s) == TrimStart(timeFmt);
    TrimNoop(timeFmt);
  }

  /** `format_commit_datetime`: `"unknown"` when the timestamp does not
      parse; otherwise the instant in the selected zone, formatted with the
      combined pattern. */
  function FormatCommitDatetime(clock: Clock, raw: string, tz: Option<string>,
                                dateFmt: string, timeFmt: string): (r: string)
    ensures clock.parseRfc3339(raw).None? ==> r == "unknown"
    ensures clock.parseRfc3339(raw).Some? ==>
      r == clock.format(InZone(clock, clock.parseRfc3339(raw).value, ParseTz(tz)), FormatPattern(dateFmt, timeFmt))
  {
    match clock.parseRfc3339(raw)
    case None => "unknown"
    case Some(src) => clock.format(InZone(clock, src, ParseTz(tz)), FormatPattern(dateFmt, timeFmt))
  }
}
