/**
 The response-text sanitizer of the bill-upload page: the webhook's reply is
 first stripped of surrounding whitespace (`str.strip()`), then stripped, from
 the right edge only, of any run of the characters `"` `'` `,` space LF CR TAB
 (`str.rstrip` with that character set), before it is handed to the CSV reader.
 */
module Sanitizer {

  /** The characters Python's `str.isspace()` accepts, which are the ones
      `str.strip()` with no argument removes. */
  predicate IsWhitespace(c: char)
  {
    || '\t' <= c <= '\r'                 // TAB, LF, VT, FF, CR
    || '\U{001C}' <= c <= '\U{001F}'     // file, group, record, unit separators
    || c == ' ' || c == '\U{0085}' || c == '\U{00A0}' || c == '\U{1680}'
    || '\U{2000}' <= c <= '\U{200A}'     // en quad .. hair space
    || c == '\U{2028}' || c == '\U{2029}' || c == '\U{202F}' || c == '\U{205F}'
    || c == '\U{3000}'
  }

  /** The character set of the second, right-only strip. It holds no
      backslash: the `\'` in the source literal is an escaped quote. */
  predicate IsTrailingJunk(c: char)
  {
    c == '"' || c == '\'' || c == ',' || c == ' ' || c == '\n' || c == '\r' || c == '\t'
  }

  // Python's strip family over an arbitrary character class. Keeping the
  // class a parameter lets the proofs below treat it as opaque.

  /** `s.rstrip(chars)`: drop the longest suffix made only of characters
      satisfying `cs`. The result is a prefix of `s`, everything dropped
      satisfies `cs`, and the result does not itself end in such a character. */
  function RStrip(s: string, cs: char -> bool): (r: string)
    ensures |r| <= |s| && r == s[..|r|]
    ensures forall i :: |r| <= i < |s| ==> cs(s[i])
    ensures r == [] || !cs(r[|r| - 1])
    decreases |s|
  {
    if s != [] && cs(s[|s| - 1]) then RStrip(s[..|s| - 1], cs) else s
  }

  /** `s.lstrip(chars)`: drop the longest prefix made only of characters
      satisfying `cs`. The result is a suffix of `s`, everything dropped
      satisfies `cs`, and the result does not itself start with such a
      character. */
  function LStrip(s: string, cs: char -> bool): (r: string)
    ensures |r| <= |s| && r == s[|s| - |r|..]
    ensures forall i :: 0 <= i < |s| - |r| ==> cs(s[i])
    ensures r == [] || !cs(r[0])
    decreases |s|
  {
    if s != [] && cs(s[0]) then LStrip(s[1..], cs) else s
  }

  /** `s.strip(chars)`: both edges stripped. The result neither starts nor
      ends with a character satisfying `cs`. */
  function Strip(s: string, cs: char -> bool): (r: string)
    ensures |r| <= |s|
    ensures r == [] || (!cs(r[0]) && !cs(r[|r| - 1]))
  {
    var right := RStrip(s, cs);
    var r := LStrip(right, cs);
    assert r != [] ==> r[|r| - 1] == right[|right| - 1];
    r
  }

  /** Independent characterization of `RStrip`: if `s` splits as `r + t`
      where `t` is made only of characters satisfying `cs` and `r` does not
      end in one, then stripping `s` gives exactly `r`. */
  lemma RStripCharacterized(s: string, cs: char -> bool, r: string, t: string)
    requires s == r + t
    requires forall i :: 0 <= i < |t| ==> cs(t[i])
    requires r == [] || !cs(r[|r| - 1])
    ensures RStrip(s, cs) == r
  {
    var q := RStrip(s, cs);
    assert r == [] || !cs(s[|r| - 1]);
    assert forall i :: |r| <= i < |s| ==> s[i] == t[i - |r|];
    assert |q| == |r|;
    assert q == s[..|r|] == r;
  }

  /** Independent characterization of `LStrip`, mirror of
      `RStripCharacterized`. */
  lemma LStripCharacterized(s: string, cs: char -> bool, t: string, r: string)
    requires s == t + r
    requires forall i :: 0 <= i < |t| ==> cs(t[i])
    requires r == [] || !cs(r[0])
    ensures LStrip(s, cs) == r
  {
    var q := LStrip(s, cs);
    assert r == [] || !cs(s[|t|]);
    assert forall i :: 0 <= i < |t| ==> s[i] == t[i];
    assert |q| == |r|;
    assert q == s[|t|..] == r;
  }

  /** The right strip is idempotent, for every character class. */
  lemma RStripIdempotent(s: string, cs: char -> bool)
    ensures RStrip(RStrip(s, cs), cs) == RStrip(s, cs)
  {
    var r := RStrip(s, cs);
    RStripCharacterized(r, cs, r, []);
  }

  /** Independent characterization of `Strip`: a string that neither starts
      nor ends with a character of the class is left alone. */
  lemma StripKeepsTrimmed(s: string, cs: char -> bool)
    requires s == [] || (!cs(s[0]) && !cs(s[|s| - 1]))
    ensures Strip(s, cs) == s
  {
    RStripCharacterized(s, cs, s, []);
    LStripCharacterized(s, cs, [], s);
  }

  /** Every character of `s` satisfies `cs`. */
  ghost predicate AllSatisfy(s: string, cs: char -> bool)
  {
    forall k :: 0 <= k < |s| ==> cs(s[k])
  }

  /** `Strip` keeps a contiguous slice `s[i..e]` of its input, with only
      characters of the class before and after it. */
  lemma StripBounds(s: string, cs: char -> bool) returns (i: nat, e: nat)
    ensures i <= e <= |s|
    ensures Strip(s, cs) == s[i..e]
    ensures AllSatisfy(s[..i], cs) && AllSatisfy(s[e..], cs)
  {
    var right := RStrip(s, cs);
    var stripped := LStrip(right, cs);
    assert stripped == Strip(s, cs);
    i := |right| - |stripped|;
    e := |right|;
    forall k | 0 <= k < i
      ensures cs(s[k])
    {
      assert s[k] == right[k];
    }
  }

  /** A strip by `ws` followed by a right strip by `junk` keeps a contiguous
      slice `s[i..j]` of the input. Before it stand only `ws` characters;
      after it a run of `junk` characters `s[j..e]` (removed by the second
      step) and a run of `ws` characters `s[e..]` (removed by the first). */
  lemma StripThenRStripBounds(s: string, ws: char -> bool, junk: char -> bool)
    returns (i: nat, j: nat, e: nat)
    ensures i <= j <= e <= |s|
    ensures RStrip(Strip(s, ws), junk) == s[i..j]
    ensures AllSatisfy(s[..i], ws)
    ensures AllSatisfy(s[j..e], junk)
    ensures AllSatisfy(s[e..], ws)
  {
    i, e := StripBounds(s, ws);
    j := RStripOfSlice(s, i, e, junk);
  }

  /** A right strip of the slice `s[i..e]` is the slice `s[i..j]`, and what
      it drops, `s[j..e]`, is all in the set. */
  lemma RStripOfSlice(s: string, i: nat, e: nat, cs: char -> bool) returns (j: nat)
    requires i <= e <= |s|
    ensures i <= j <= e
    ensures RStrip(s[i..e], cs) == s[i..j]
    ensures AllSatisfy(s[j..e], cs)
  {
    var r := RStrip(s[i..e], cs);
    j := i + |r|;
    SliceOfSlice(s, i, e, 0, |r|);
    SliceOfSlice(s, i, e, |r|, e - i);
  }

  /** A slice of a slice is a slice of the original. */
  lemma SliceOfSlice(s: string, i: nat, e: nat, a: nat, b: nat)
    requires i <= e <= |s| && a <= b <= e - i
    ensures s[i..e][a..b] == s[i + a..i + b]
  {
    forall k | 0 <= k < b - a
      ensures s[i..e][a..b][k] == s[i + a..i + b][k]
    {
    }
  }

  /** A strip by `ws` followed by a right strip by `junk` is idempotent when
      every `ws` character of the input is also a `junk` character. */
  lemma StripThenRStripIdempotent(s: string, ws: char -> bool, junk: char -> bool)
    requires forall i :: 0 <= i < |s| && ws(s[i]) ==> junk(s[i])
    ensures var r := RStrip(Strip(s, ws), junk);
      RStrip(Strip(r, ws), junk) == r
  {
    var stripped := Strip(s, ws);
    var r := RStrip(stripped, junk);
    TrimmedEnds(s, ws, junk);
    StripKeepsTrimmed(r, ws);
    RStripIdempotent(stripped, junk);
  }

  /** Under the same condition, the cleaned string neither starts nor ends
      with a `ws` character. */
  lemma TrimmedEnds(s: string, ws: char -> bool, junk: char -> bool)
    requires forall i :: 0 <= i < |s| && ws(s[i]) ==> junk(s[i])
    ensures var r := RStrip(Strip(s, ws), junk);
      r == [] || (!ws(r[0]) && !ws(r[|r| - 1]))
  {
    var stripped := Strip(s, ws);
    var i, e := StripBounds(s, ws);
    var r := RStrip(stripped, junk);
    if r != [] {
      assert r[|r| - 1] == s[i + |r| - 1];
      assert r[0] == stripped[0];
    }
  }

  /** A cleaned string `r` (not starting with a `ws` character, not ending in
      a `junk` character) is a fixed point of the two steps exactly when it
      does not end in a `ws` character either. */
  lemma StripThenRStripFixedPoint(r: string, ws: char -> bool, junk: char -> bool)
    requires r == [] || (!ws(r[0]) && !junk(r[|r| - 1]))
    ensures RStrip(Strip(r, ws), junk) == r <==> (r == [] || !ws(r[|r| - 1]))
  {
    if r == [] || !ws(r[|r| - 1]) {
      StripKeepsTrimmed(r, ws);
      RStripCharacterized(r, junk, r, []);
    } else {
      var right := RStrip(r, ws);
      assert |right| < |r|;
      assert |Strip(r, ws)| <= |right|;
    }
  }

  /** The characters both steps remove are exactly space, LF, CR and TAB; the
      other three of the second set (`"`, `'`, `,`) are not whitespace. */
  lemma TrailingJunkWhitespace()
    ensures forall c :: IsTrailingJunk(c) && IsWhitespace(c) <==> c in " \n\r\t"
  {
  }

  // The page's two-step clean.

  /** The two-step clean of google_sheet_display.py lines 59-60. Total: every
      string, the empty one included, has a sanitized form. The result does
      not start with whitespace and does not end in a stripped character. */
  function Sanitize(text: string): (r: string)
    ensures |r| <= |text|
    ensures r == [] || !IsWhitespace(r[0])
    ensures r == [] || !IsTrailingJunk(r[|r| - 1])
  {
    var stripped := Strip(text, IsWhitespace);
    var r := RStrip(stripped, IsTrailingJunk);
    assert r != [] ==> r[0] == stripped[0];
    r
  }

  /** Only the characters that both strips remove count as whitespace here. */
  ghost predicate NoOtherWhitespace(s: string)
  {
    forall i :: 0 <= i < |s| && IsWhitespace(s[i]) ==> IsTrailingJunk(s[i])
  }

  /** Empty or whitespace-only text sanitizes to the empty string. */
  lemma SanitizeBlank(text: string)
    requires AllSatisfy(text, IsWhitespace)
    ensures Sanitize(text) == ""
  {
    RStripCharacterized(text, IsWhitespace, [], text);
  }

  /** The result is a contiguous slice of the input: the input is a run of
      whitespace, then the result unchanged, then a run of stripped
      characters, then a run of whitespace. Interior characters are never
      altered, and nothing but whitespace is removed on the left. */
  lemma SanitizeIsSlice(text: string)
    ensures exists i, j, e ::
      && 0 <= i <= j <= e <= |text|
      && Sanitize(text) == text[i..j]
      && AllSatisfy(text[..i], IsWhitespace)
      && AllSatisfy(text[j..e], IsTrailingJunk)
      && AllSatisfy(text[e..], IsWhitespace)
  {
    var i, j, e := StripThenRStripBounds(text, IsWhitespace, IsTrailingJunk);
    assert Sanitize(text) == text[i..j];
  }

  /** The full clean is idempotent on text whose only whitespace characters
      are ones the second step also strips (space, TAB, LF, CR). */
  lemma SanitizeIdempotent(text: string)
    requires NoOtherWhitespace(text)
    ensures Sanitize(Sanitize(text)) == Sanitize(text)
  {
    StripThenRStripIdempotent(text, IsWhitespace, IsTrailingJunk);
  }

  /** The exact condition: a second pass changes nothing iff the first
      pass's result is empty or does not end in whitespace. */
  lemma SanitizeIdempotentIff(text: string)
    ensures var r := Sanitize(text);
      Sanitize(r) == r <==> (r == [] || !IsWhitespace(r[|r| - 1]))
  {
    StripThenRStripFixedPoint(Sanitize(text), IsWhitespace, IsTrailingJunk);
  }

  /** Without that precondition the clean is not idempotent: a vertical tab
      shields a quote from the second step, and a second pass then strips the
      tab as whitespace. */
  lemma SanitizeNotIdempotentInGeneral()
    ensures Sanitize(Sanitize("a\U{000B}'")) != Sanitize("a\U{000B}'")
  {
    SanitizeKeepsVerticalTab();
    SanitizeDropsVerticalTab();
  }

  /** First pass: the quote goes, the vertical tab before it stays. */
  lemma SanitizeKeepsVerticalTab()
    ensures Sanitize("a\U{000B}'") == "a\U{000B}"
  {
    StripKeepsTrimmed("a\U{000B}'", IsWhitespace);
    RStripCharacterized("a\U{000B}'", IsTrailingJunk, "a\U{000B}", "'");
  }

  /** Second pass: the now trailing vertical tab is whitespace and goes. */
  lemma SanitizeDropsVerticalTab()
    ensures Sanitize("a\U{000B}") == "a"
  {
    assert IsWhitespace('\U{000B}') && !IsWhitespace('a');
    RStripCharacterized("a\U{000B}", IsWhitespace, "a", "\U{000B}");
    LStripCharacterized("a", IsWhitespace, [], "a");
    assert Strip("a\U{000B}", IsWhitespace) == "a";
    RStripCharacterized("a", IsTrailingJunk, "a", []);
  }

  /** A trailing backslash survives: it is not in the stripped set. */
  lemma SanitizeKeepsBackslash()
    ensures Sanitize("C:\\") == "C:\\"
  {
    StripKeepsTrimmed("C:\\", IsWhitespace);
    RStripCharacterized("C:\\", IsTrailingJunk, "C:\\", []);
  }

  /** Surrounding whitespace and a trailing quote/comma run are removed. */
  lemma SanitizeExample()
    ensures Sanitize(" data\n\n  ',\n") == "data"
  {
    StripExample();
    RStripCharacterized("data\n\n  ',", IsTrailingJunk, "data", "\n\n  ',");
  }

  /** The first step of `SanitizeExample`: only whitespace goes. */
  lemma StripExample()
    ensures Strip(" data\n\n  ',\n", IsWhitespace) == "data\n\n  ',"
  {
    RStripCharacterized(" data\n\n  ',\n", IsWhitespace, " data\n\n  ',", "\n");
    LStripCharacterized(" data\n\n  ',", IsWhitespace, " ", "data\n\n  ',");
  }
}
