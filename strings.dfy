/** The parts of Rust's `str` API that the preprocessor relies on, written out
    over `string` (= `seq<char>`): prefix and suffix tests, substring search,
    `replace`, `trim`, `trim_end_matches`, `strip_prefix`, `split_once` and
    `to_ascii_lowercase`. */
module Strings {
  import opened Wrappers

  predicate StartsWith(s: string, p: string) {
    |p| <= |s| && s[..|p|] == p
  }

  predicate EndsWith(s: string, p: string) {
    |p| <= |s| && s[|s| - |p|..] == p
  }

  /** `str::contains`: `p` occurs somewhere in `s` (the empty pattern always does). */
  predicate Contains(s: string, p: string)
    decreases |s|
  {
    StartsWith(s, p) || (|s| > 0 && Contains(s[1..], p))
  }

  /** Appending text after `a` keeps every occurrence in `a`. */
  lemma {:induction false} ContainsInLeft(a: string, b: string, p: string)
    requires Contains(a, p)
    ensures Contains(a + b, p)
    decreases |a|
  {
    if StartsWith(a, p) {
      StartsWithAppend(a, b, p);
    } else {
      ContainsInLeft(a[1..], b, p);
      assert (a + b)[1..] == a[1..] + b;
    }
  }

  /** Prepending text before `b` keeps every occurrence in `b`. */
  lemma {:induction false} ContainsInRight(a: string, b: string, p: string)
    requires Contains(b, p)
    ensures Contains(a + b, p)
    decreases |a|
  {
    if |a| > 0 {
      ContainsInRight(a[1..], b, p);
      assert (a + b)[1..] == a[1..] + b;
    } else {
      assert a + b == b;
    }
  }

  /** Every string contains itself. */
  lemma ContainsSelf(s: string)
    ensures Contains(s, s)
  {
    assert StartsWith(s, s);
  }

  /** If `s` contains `p`, it contains every prefix of `p`. */
  lemma {:induction false} ContainsPrefixOf(s: string, p: string, q: string)
    requires Contains(s, p) && StartsWith(p, q)
    ensures Contains(s, q)
    decreases |s|
  {
    if StartsWith(s, p) {
      assert s[..|q|] == p[..|q|];
    } else {
      ContainsPrefixOf(s[1..], p, q);
    }
  }

  lemma StartsWithAppend(a: string, b: string, p: string)
    requires StartsWith(a, p)
    ensures StartsWith(a + b, p)
  {
    assert (a + b)[..|p|] == a[..|p|];
  }

  /** Rust's `str::replace(pat, rep)` for a non-empty pattern: every
      non-overlapping occurrence of `pat`, found scanning left to right, is
      replaced by `rep`. */
  function Replace(s: string, pat: string, rep: string): string
    requires |pat| > 0
    decreases |s|
  {
    if |s| < |pat| then s
    else if s[..|pat|] == pat then rep + Replace(s[|pat|..], pat, rep)
    else [s[0]] + Replace(s[1..], pat, rep)
  }

  /** A string without the pattern is left unchanged. */
  lemma {:induction false} ReplaceNoMatch(s: string, pat: string, rep: string)
    requires |pat| > 0 && !Contains(s, pat)
    ensures Replace(s, pat, rep) == s
    decreases |s|
  {
    if |s| >= |pat| {
      assert s[..|pat|] != pat;
      ReplaceNoMatch(s[1..], pat, rep);
      assert [s[0]] + s[1..] == s;
    }
  }

  /** Replacing a pattern by itself changes nothing. */
  lemma {:induction false} ReplaceSelf(s: string, pat: string)
    requires |pat| > 0
    ensures Replace(s, pat, pat) == s
    decreases |s|
  {
    if |s| >= |pat| {
      if s[..|pat|] == pat {
        ReplaceSelf(s[|pat|..], pat);
        assert s[..|pat|] + s[|pat|..] == s;
      } else {
        ReplaceSelf(s[1..], pat);
        assert [s[0]] + s[1..] == s;
      }
    }
  }

  /** A string that is exactly the pattern becomes exactly the replacement. */
  lemma ReplaceWhole(pat: string, rep: string)
    requires |pat| > 0
    ensures Replace(pat, pat, rep) == rep
  {
    assert pat[..|pat|] == pat;
    assert pat[|pat|..] == [];
    assert Replace([], pat, rep) == [];
  }

  /** One pass of `Replace` does not remove every occurrence: deleting an
      occurrence can join its neighbours into a new one, which is then left
      in the result. */
  lemma ReplaceCanCreateOccurrence()
    ensures Replace("{{{{hash}}hash}}", "{{hash}}", "") == "{{hash}}"
  {
    var s := "{{{{hash}}hash}}";
    var p := "{{hash}}";
    MatchThenShortTail();
    assert s[2..] == "{{hash}}hash}}";
    assert s[..8] != p by { assert s[2] != p[2]; }
    assert s[1..][..8] != p by { assert s[1..][2] != p[2]; }
    assert s[1..][1..] == s[2..];
  }

  /** The pattern followed by a text too short to hold it loses the pattern. */
  lemma MatchThenShortTail()
    ensures Replace("{{hash}}hash}}", "{{hash}}", "") == "hash}}"
  {
    var t := "{{hash}}hash}}";
    assert t[..8] == "{{hash}}";
    assert t[8..] == "hash}}";
  }

  /** No occurrence of `pat` starts at position `i` of `s`, although one
      would fit there. */
  predicate NoMatchAt(s: string, i: int, pat: string) {
    0 <= i && i + |pat| <= |s| && s[i..i + |pat|] != pat
  }

  /** Scanning past `k` positions that start no occurrence copies them. */
  lemma {:induction false} ReplaceSkipsPrefix(s: string, k: nat, pat: string, rep: string)
    requires |pat| > 0
    requires forall i :: 0 <= i < k ==> NoMatchAt(s, i, pat)
    ensures k <= |s|
    ensures Replace(s, pat, rep) == s[..k] + Replace(s[k..], pat, rep)
    decreases k
  {
    if k > 0 {
      assert Replace(s, pat, rep) == [s[0]] + Replace(s[1..], pat, rep) by {
        assert NoMatchAt(s, 0, pat);
        assert s[..|pat|] == s[0..0 + |pat|];
      }
      NoMatchShift(s, k, pat);
      ReplaceSkipsPrefix(s[1..], k - 1, pat, rep);
      assert s[1..][k - 1..] == s[k..];
      assert [s[0]] + s[1..][..k - 1] == s[..k];
    }
  }

  /** Dropping the first character shifts the positions that start no occurrence. */
  lemma NoMatchShift(s: string, k: nat, pat: string)
    requires |pat| > 0 && 0 < k && forall i :: 0 <= i < k ==> NoMatchAt(s, i, pat)
    ensures |s| > 0 && forall i :: 0 <= i < k - 1 ==> NoMatchAt(s[1..], i, pat)
  {
    assert NoMatchAt(s, 0, pat);
    forall i | 0 <= i < k - 1 ensures NoMatchAt(s[1..], i, pat) {
      assert NoMatchAt(s, i + 1, pat);
      assert s[1..][i..i + |pat|] == s[i + 1..i + 1 + |pat|];
    }
  }

  /** Positions whose character is not the pattern's first start no occurrence. */
  lemma NoMatchBeforeHead(s: string, k: nat, pat: string)
    requires |pat| > 0 && k + |pat| <= |s| + 1 && pat[0] !in s[..k]
    ensures forall i :: 0 <= i < k ==> NoMatchAt(s, i, pat)
  {
    forall i | 0 <= i < k ensures NoMatchAt(s, i, pat) {
      assert s[..k][i] == s[i];
      assert s[i..i + |pat|][0] == s[i];
    }
  }

  /** An occurrence at the front is replaced and the scan resumes after it. */
  lemma ReplaceAfterMatch(pat: string, rest: string, rep: string)
    requires |pat| > 0
    ensures Replace(pat + rest, pat, rep) == rep + Replace(rest, pat, rep)
  {
    assert (pat + rest)[..|pat|] == pat;
    assert (pat + rest)[|pat|..] == rest;
  }

  /** Replacing in `head + pat + tail`, where `head` holds no first
      character of `pat`: `head` is copied and the occurrence right after it
      is the first one replaced. */
  lemma ReplaceFirstAfter(head: string, pat: string, tail: string, rep: string)
    requires |pat| > 0 && pat[0] !in head
    ensures Replace(head + pat + tail, pat, rep) == head + rep + Replace(tail, pat, rep)
  {
    var s := head + pat + tail;
    assert s[..|head|] == head;
    NoMatchBeforeHead(s, |head|, pat);
    ReplaceSkipsPrefix(s, |head|, pat, rep);
    assert s[|head|..] == pat + tail;
    ReplaceAfterMatch(pat, tail, rep);
  }

  /** A string in which no position starts the pattern does not contain it. */
  lemma {:induction false} NotContainsAtNoPosition(s: string, pat: string)
    requires |pat| > 0
    requires forall i :: 0 <= i <= |s| - |pat| ==> NoMatchAt(s, i, pat)
    ensures !Contains(s, pat)
    decreases |s|
  {
    if |s| >= |pat| {
      assert NoMatchAt(s, 0, pat);
      assert s[..|pat|] == s[0..0 + |pat|];
      forall i | 0 <= i <= |s[1..]| - |pat| ensures NoMatchAt(s[1..], i, pat) {
        assert NoMatchAt(s, i + 1, pat);
        assert s[1..][i..i + |pat|] == s[i + 1..i + 1 + |pat|];
      }
      NotContainsAtNoPosition(s[1..], pat);
    } else if |s| > 0 {
      NotContainsAtNoPosition(s[1..], pat);
    }
  }

  /** One occurrence after a stretch that starts none, and none after it:
      exactly that occurrence is replaced. */
  lemma ReplaceSingle(a: string, pat: string, b: string, rep: string)
    requires |pat| > 0
    requires forall i :: 0 <= i < |a| ==> NoMatchAt(a + pat + b, i, pat)
    requires !Contains(b, pat)
    ensures Replace(a + pat + b, pat, rep) == a + rep + b
  {
    var s := a + pat + b;
    ReplaceSkipsPrefix(s, |a|, pat, rep);
    assert s[..|a|] == a;
    assert s[|a|..] == pat + b;
    assert (pat + b)[..|pat|] == pat;
    assert (pat + b)[|pat|..] == b;
    ReplaceNoMatch(b, pat, rep);
  }

  /** Rust's `str::trim`, `trim_start` and `trim_end` use `char::is_whitespace`
      (the Unicode White_Space property). */
  predicate IsWhitespace(c: char) {
    c == ' ' || ('\t' <= c <= '\r') || c == '\U{0085}' || c == '\U{00A0}' || c == '\U{1680}'
    || ('\U{2000}' <= c <= '\U{200A}') || c == '\U{2028}' || c == '\U{2029}'
    || c == '\U{202F}' || c == '\U{205F}' || c == '\U{3000}'
  }

  function TrimStart(s: string): (r: string)
    ensures |r| <= |s| && r == s[|s| - |r|..]
    ensures forall i :: 0 <= i < |s| - |r| ==> IsWhitespace(s[i])
    ensures |r| > 0 ==> !IsWhitespace(r[0])
    decreases |s|
  {
    if |s| > 0 && IsWhitespace(s[0]) then TrimStart(s[1..]) else s
  }

  function TrimEnd(s: string): (r: string)
    ensures |r| <= |s| && r == s[..|r|]
    ensures forall i :: |r| <= i < |s| ==> IsWhitespace(s[i])
    ensures |r| > 0 ==> !IsWhitespace(r[|r| - 1])
    decreases |s|
  {
    if |s| > 0 && IsWhitespace(s[|s| - 1]) then TrimEnd(s[..|s| - 1]) else s
  }

  /** `str::trim`: a slice of `s` that neither starts nor ends with whitespace. */
  function Trim(s: string): (r: string)
    ensures |r| > 0 ==> !IsWhitespace(r[0]) && !IsWhitespace(r[|r| - 1])
  {
    var t := TrimStart(s);
    var r := TrimEnd(t);
    assert |r| > 0 ==> r[0] == t[0] by {
      if |r| > 0 {
        assert r == t[..|r|];
      }
    }
    r
  }

  /** `r` is the slice of `s` starting at `i`, and everything of `s`
      before and after it is whitespace. */
  predicate CutBetweenWhitespace(s: string, i: int, r: string) {
    0 <= i && i + |r| <= |s| && r == s[i..i + |r|]
    && (forall k :: 0 <= k < i ==> IsWhitespace(s[k]))
    && (forall k :: i + |r| <= k < |s| ==> IsWhitespace(s[k]))
  }

  /** `Trim(s)` is the slice of `s` left after whitespace-only runs at the
      front and at the back are cut off. With the contract of `Trim` this
      pins the result down: the slice is the empty one exactly when `s` is
      all whitespace, and otherwise it runs from the first to the last
      character that is not whitespace. */
  lemma TrimIsSlice(s: string)
    ensures exists i :: CutBetweenWhitespace(s, i, Trim(s))
  {
    var t := TrimStart(s);
    var r := TrimEnd(t);
    assert Trim(s) == r;
    var i := |s| - |t|;
    assert t == s[i..];
    assert r == t[..|r|];
    assert r == s[i..i + |r|];
    forall k | 0 <= k < i ensures IsWhitespace(s[k]) {
    }
    forall k | i + |r| <= k < |s| ensures IsWhitespace(s[k]) {
      assert s[k] == t[k - i];
      assert |r| <= k - i < |t|;
    }
    assert CutBetweenWhitespace(s, i, r);
  }

  /** A string that neither starts nor ends with whitespace is its own trim. */
  lemma TrimNoop(s: string)
    requires |s| > 0 ==> !IsWhitespace(s[0]) && !IsWhitespace(s[|s| - 1])
    ensures Trim(s) == s
  {
  }

  /** `n` copies of `p`, one after the other. */
  function Repeat(p: string, n: nat): (r: string)
    ensures |r| == n * |p|
  {
    if n == 0 then "" else Repeat(p, n - 1) + p
  }

  /** How many copies of `p` end `s`, counted back to front. */
  function TrailingCopies(s: string, p: string): nat
    requires |p| > 0
    decreases |s|
  {
    if EndsWith(s, p) then TrailingCopies(s[..|s| - |p|], p) + 1 else 0
  }

  /** `str::trim_end_matches` with a string pattern: strips every trailing
      repetition of `p`. */
  function TrimEndMatches(s: string, p: string): (r: string)
    requires |p| > 0
    ensures !EndsWith(r, p)
    ensures |r| <= |s| && r == s[..|r|]
    decreases |s|
  {
    if EndsWith(s, p) then TrimEndMatches(s[..|s| - |p|], p) else s
  }

  /** One more copy at the end of `n` copies makes `n + 1`. */
  lemma AppendCopy(r: string, p: string, n: nat)
    ensures (r + Repeat(p, n)) + p == r + Repeat(p, n + 1)
  {
    assert Repeat(p, n + 1) == Repeat(p, n) + p;
  }

  /** What `TrimEndMatches` strips is exactly the trailing copies of `p`:
      the input is the result followed by that many copies. */
  lemma {:induction false} TrimEndMatchesRemovesCopies(s: string, p: string)
    requires |p| > 0
    ensures s == TrimEndMatches(s, p) + Repeat(p, TrailingCopies(s, p))
    decreases |s|
  {
    if EndsWith(s, p) {
      var rest := s[..|s| - |p|];
      TrimEndMatchesRemovesCopies(rest, p);
      var r, k := TrimEndMatches(rest, p), TrailingCopies(rest, p);
      assert TrimEndMatches(s, p) == r && TrailingCopies(s, p) == k + 1;
      assert s == rest + p;
      AppendCopy(r, p, k);
    } else {
      assert s + Repeat(p, 0) == s;
    }
  }

  /** `str::trim_end_matches` with a character pattern. */
  function TrimEndChar(s: string, c: char): (r: string)
    ensures |r| <= |s| && r == s[..|r|]
    ensures |r| > 0 ==> r[|r| - 1] != c
    ensures forall i :: |r| <= i < |s| ==> s[i] == c
    decreases |s|
  {
    if |s| > 0 && s[|s| - 1] == c then TrimEndChar(s[..|s| - 1], c) else s
  }

  /** `str::strip_prefix`. */
  function StripPrefix(s: string, p: string): (r: Option<string>)
    ensures r.Some? <==> StartsWith(s, p)
    ensures r.Some? ==> p + r.value == s
  {
    if StartsWith(s, p) then Some(s[|p|..]) else None
  }

  /** `str::split_once` with a character: the text before and after the
      first occurrence of `c`. */
  function SplitOnce(s: string, c: char): (r: Option<(string, string)>)
    ensures r.None? <==> c !in s
    ensures r.Some? ==> s == r.value.0 + [c] + r.value.1 && c !in r.value.0
    decreases |s|
  {
    if |s| == 0 then None
    else if s[0] == c then Some(([], s[1..]))
    else match SplitOnce(s[1..], c)
      case None => None
      case Some((a, b)) => Some(([s[0]] + a, b))
  }

  /** Splitting `a + [c] + b` at the first `c` gives back `a` and `b` when
      `a` holds no `c`. */
  lemma {:induction false} SplitOnceJoin(a: string, b: string, c: char)
    requires c !in a
    ensures SplitOnce(a + [c] + b, c) == Some((a, b))
    decreases |a|
  {
    var s := a + [c] + b;
    if |a| == 0 {
      assert s == [c] + b;
    } else {
      assert c !in a[1..] by {
        assert forall x :: x in a[1..] ==> x in a;
      }
      SplitOnceJoin(a[1..], b, c);
      assert s[0] == a[0] != c;
      assert s[1..] == a[1..] + [c] + b;
      assert SplitOnce(s, c) == Some(([a[0]] + a[1..], b));
      assert [a[0]] + a[1..] == a;
    }
  }

  function AsciiLowerChar(c: char): char {
    if 'A' <= c <= 'Z' then (c as int + 32) as char else c
  }

  /** `str::to_ascii_lowercase`. */
  function AsciiLower(s: string): (r: string)
    ensures |r| == |s|
    ensures forall i :: 0 <= i < |s| ==> r[i] == AsciiLowerChar(s[i])
  {
    seq(|s|, i requires 0 <= i < |s| => AsciiLowerChar(s[i]))
  }
}
