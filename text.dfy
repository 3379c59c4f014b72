/** Character classes and string helpers shared by the salary extractor,
    the sheet helpers and the pipeline. Strings are sequences of Unicode
    scalar values, as Python 3 `str` values are. */
module Text {

  /** Python's `str.isspace()`, which is also what the `\s` class of a `str`
      regular expression and `str.strip()` use. */
  predicate IsSpace(c: char) {
    if c <= ' ' then
      ('\t' <= c <= '\r') || ('\U{1C}' <= c <= '\U{1F}') || c == ' '
    else
      '\U{85}' <= c &&
      (c == '\U{85}' || c == '\U{A0}' || c == '\U{1680}' ||
       ('\U{2000}' <= c <= '\U{200A}') || c == '\U{2028}' || c == '\U{2029}' ||
       c == '\U{202F}' || c == '\U{205F}' || c == '\U{3000}')
  }

  /** The ASCII decimal digits (the `\d` class, restricted to ASCII). */
  predicate IsDigit(c: char) {
    '0' <= c <= '9'
  }

  predicate AllDigits(s: string) {
    forall i :: 0 <= i < |s| ==> IsDigit(s[i])
  }

  function DigitValue(c: char): (d: nat)
    requires IsDigit(c)
    ensures d < 10
  {
    c as int - '0' as int
  }

  function DigitChar(d: nat): (c: char)
    requires d < 10
    ensures IsDigit(c) && DigitValue(c) == d
  {
    ('0' as int + d) as char
  }

  const KelvinSign: char := '\U{212A}'

  /** Python's `str.lower()` on one character, for every character whose
      lower-case form is an ASCII letter: 'A'..'Z' and the Kelvin sign,
      which lower-cases to 'k'. Every other character is kept. */
  function LowerChar(c: char): (r: char)
    ensures !('A' <= r <= 'Z')
    ensures 'a' <= c <= 'z' ==> r == c
  {
    if 'A' <= c <= 'Z' then (c as int + 32) as char
    else if c == KelvinSign then 'k'
    else c
  }

  function Lower(s: string): (r: string)
    ensures |r| == |s|
    ensures forall i :: 0 <= i < |s| ==> r[i] == LowerChar(s[i])
  {
    if s == [] then [] else [LowerChar(s[0])] + Lower(s[1..])
  }

  predicate HasUpperAscii(s: string) {
    exists i :: 0 <= i < |s| && 'A' <= s[i] <= 'Z'
  }

  /** `pat` occurs in `text` starting at index `i`. */
  predicate OccursAt(text: string, pat: string, i: nat) {
    i + |pat| <= |text| && text[i..i + |pat|] == pat
  }

  /** Python's `pat in text` for two strings. */
  predicate Contains(text: string, pat: string) {
    exists i: nat :: i <= |text| && OccursAt(text, pat, i)
  }

  /** A lower-cased text never contains a pattern with an upper-case ASCII
      letter in it. */
  lemma LowerHasNoUpper(s: string, pat: string)
    requires HasUpperAscii(pat)
    ensures !Contains(Lower(s), pat)
  {
    var j :| 0 <= j < |pat| && 'A' <= pat[j] <= 'Z';
    forall i: nat | i <= |Lower(s)|
      ensures !OccursAt(Lower(s), pat, i)
    {
      if i + |pat| <= |Lower(s)| {
        assert Lower(s)[i..i + |pat|][j] == Lower(s)[i + j];
      }
    }
  }

  /** Number of leading characters of `s` that are white space. */
  function LeadingSpace(s: string): (n: nat)
    ensures n <= |s|
    ensures forall i :: 0 <= i < n ==> IsSpace(s[i])
    ensures n == |s| || !IsSpace(s[n])
  {
    if s != [] && IsSpace(s[0]) then 1 + LeadingSpace(s[1..]) else 0
  }

  /** Number of trailing characters of `s` that are white space. */
  function TrailingSpace(s: string): (n: nat)
    ensures n <= |s|
    ensures forall i :: |s| - n <= i < |s| ==> IsSpace(s[i])
    ensures n == |s| || !IsSpace(s[|s| - 1 - n])
  {
    if s != [] && IsSpace(s[|s| - 1]) then 1 + TrailingSpace(s[..|s| - 1]) else 0
  }

  /** Python's `str.strip()` with no argument. */
  function Strip(s: string): (r: string)
    ensures |r| <= |s|
    ensures r == [] || (!IsSpace(r[0]) && !IsSpace(r[|r| - 1]))
    ensures var a := LeadingSpace(s);
              a + |r| <= |s| && r == s[a..a + |r|] &&
              (forall i :: 0 <= i < a ==> IsSpace(s[i])) &&
              (forall i :: a + |r| <= i < |s| ==> IsSpace(s[i]))
  {
    var a := LeadingSpace(s);
    var t := s[a..];
    var b := TrailingSpace(t);
    var r := t[..|t| - b];
    assert r == s[a..a + |r|];
    r
  }

  /** Stripping leaves a text whose ends are not white space unchanged. */
  lemma StripKeeps(s: string)
    requires s == [] || (!IsSpace(s[0]) && !IsSpace(s[|s| - 1]))
    ensures Strip(s) == s
  {
    var a := LeadingSpace(s);
    var t := s[a..];
    assert t == s;
    var b := TrailingSpace(t);
    assert b == 0;
  }

  /** Python's `s.replace(",", "")`. */
  function RemoveCommas(s: string): (r: string)
    ensures |r| <= |s|
    ensures forall i :: 0 <= i < |r| ==> r[i] != ','
  {
    if s == [] then []
    else (if s[0] == ',' then [] else [s[0]]) + RemoveCommas(s[1..])
  }

  lemma {:induction false} RemoveCommasAppend(s: string, t: string)
    ensures RemoveCommas(s + t) == RemoveCommas(s) + RemoveCommas(t)
  {
    if s == [] {
      assert s + t == t;
    } else {
      assert (s + t)[1..] == s[1..] + t;
      RemoveCommasAppend(s[1..], t);
    }
  }

  lemma {:induction false} RemoveCommasNone(s: string)
    requires forall i :: 0 <= i < |s| ==> s[i] != ','
    ensures RemoveCommas(s) == s
  {
    if s != [] {
      RemoveCommasNone(s[1..]);
    }
  }

  /** Value of a string of decimal digits, most significant first. */
  function DigitsValue(s: string): (n: nat)
    requires AllDigits(s)
  {
    if s == [] then 0 else 10 * DigitsValue(s[..|s| - 1]) + DigitValue(s[|s| - 1])
  }

  /** Python's `str(n)` for a natural number: the decimal digits of n with
      no leading zero, and "0" for zero. */
  function NatToString(n: nat): (r: string)
    ensures |r| > 0 && AllDigits(r)
    ensures DigitsValue(r) == n
    ensures n == 0 ==> r == "0"
    ensures n > 0 ==> r[0] != '0'
    decreases n
  {
    if n < 10 then [DigitChar(n)]
    else
      var r := NatToString(n / 10) + [DigitChar(n % 10)];
      assert r[..|r| - 1] == NatToString(n / 10);
      r
  }

  /** Python's `str(i)` for an integer. */
  function IntToString(i: int): (r: string)
    ensures |r| > 0
    ensures i == 0 ==> r == "0"
    ensures i >= 0 ==> AllDigits(r) && DigitsValue(r) == i
    ensures i < 0 ==> r[0] == '-' && AllDigits(r[1..]) && DigitsValue(r[1..]) == -i
    ensures i != 0 ==> var d := if i < 0 then 1 else 0; d < |r| && r[d] != '0'
  {
    if i >= 0 then NatToString(i)
    else
      var r := "-" + NatToString(-i);
      assert r[1..] == NatToString(-i);
      r
  }

  /** Python's `sep.join(parts)`. */
  function Join(sep: string, parts: seq<string>): (r: string)
  {
    if parts == [] then ""
    else if |parts| == 1 then parts[0]
    else parts[0] + sep + Join(sep, parts[1..])
  }

  /** Python's `s.split(c)` for a one-character separator. */
  function Split(s: string, c: char): (r: seq<string>)
    ensures |r| > 0
    decreases |s|
  {
    if s == [] then [""]
    else if s[0] == c then [""] + Split(s[1..], c)
    else
      var rest := Split(s[1..], c);
      [[s[0]] + rest[0]] + rest[1..]
  }

  predicate Free(s: string, c: char) {
    forall i :: 0 <= i < |s| ==> s[i] != c
  }

  /** Splitting a string that has no separator in it gives the string. */
  lemma {:induction false} SplitFree(s: string, c: char, tail: string)
    requires Free(s, c)
    ensures Split(s + tail, c) == [s + Split(tail, c)[0]] + Split(tail, c)[1..]
    decreases |s|
  {
    if s == [] {
      assert s + tail == tail;
      assert s + Split(tail, c)[0] == Split(tail, c)[0];
      assert Split(tail, c) == [Split(tail, c)[0]] + Split(tail, c)[1..];
    } else {
      assert (s + tail)[1..] == s[1..] + tail;
      SplitFree(s[1..], c, tail);
      assert [s[0]] + (s[1..] + Split(tail, c)[0]) == s + Split(tail, c)[0];
    }
  }

  /** Joining with a one-character separator and splitting on it gives the
      parts back, when no part holds the separator. */
  lemma {:induction false} SplitJoin(parts: seq<string>, c: char)
    requires |parts| > 0
    requires forall i :: 0 <= i < |parts| ==> Free(parts[i], c)
    ensures Split(Join([c], parts), c) == parts
  {
    if |parts| == 1 {
      SplitFree(parts[0], c, "");
      assert parts[0] + "" == parts[0];
    } else {
      var rest := Join([c], parts[1..]);
      SplitJoin(parts[1..], c);
      assert Split([c] + rest, c) == [""] + Split(rest, c) by {
        assert ([c] + rest)[1..] == rest;
      }
      assert Join([c], parts) == parts[0] + ([c] + rest);
      SplitFree(parts[0], c, [c] + rest);
      assert parts[0] + "" == parts[0];
      assert parts == [parts[0]] + parts[1..];
    }
  }
}
