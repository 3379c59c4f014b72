/** The Python values that flow through the pipeline's rows: `None`, a float
    NaN (a missing cell of a DataFrame), booleans, integers, strings and
    lists. Only what the pipeline does with them is modelled: `str()`,
    `repr()`, truthiness and `pd.isna`. */
module Cells {
  import opened Text

  datatype Cell = Null | NaN | Bool(b: bool) | Int(i: int) | Str(s: string) | List(items: seq<Cell>)

  /** Python truthiness: `None`, `False`, `0`, `''` and `[]` are false;
      NaN is true. */
  predicate Truthy(c: Cell) {
    match c
    case Null => false
    case NaN => true
    case Bool(b) => b
    case Int(i) => i != 0
    case Str(s) => s != ""
    case List(items) => items != []
  }

  /** `pd.isna` on a scalar: only `None` and NaN are missing. */
  predicate IsMissing(c: Cell) {
    c.Null? || c.NaN?
  }

  function HexDigit(d: nat): (c: char)
    requires d < 16
  {
    if d < 10 then ('0' as int + d) as char else ('a' as int + d - 10) as char
  }

  /** One character of a string's `repr()` that is delimited by `quote`.
      Characters outside ASCII are kept as they are. */
  function EscapeChar(c: char, quote: char): (r: string)
    ensures |r| >= 1
  {
    if c == '\\' then "\\\\"
    else if c == quote then ['\\', quote]
    else if c == '\n' then "\\n"
    else if c == '\r' then "\\r"
    else if c == '\t' then "\\t"
    else if c < ' ' || c == '\U{7F}' then ['\\', 'x', HexDigit(c as int / 16), HexDigit(c as int % 16)]
    else [c]
  }

  function Escape(s: string, quote: char): (r: string)
    ensures |r| >= |s|
  {
    if s == [] then [] else EscapeChar(s[0], quote) + Escape(s[1..], quote)
  }

  /** `repr()` of a string: single quotes unless the text holds a single
      quote and no double quote. */
  function QuoteString(s: string): (r: string)
    ensures |r| >= 2
  {
    var quote := if '\'' in s && '"' !in s then '"' else '\'';
    [quote] + Escape(s, quote) + [quote]
  }

  /** Python `str()`. */
  function ToText(c: Cell): (r: string)
    decreases c, 0
  {
    match c
    case Null => "None"
    case NaN => "nan"
    case Bool(b) => if b then "True" else "False"
    case Int(i) => IntToString(i)
    case Str(s) => s
    case List(items) =>
      "[" + Join(", ", seq(|items|, k requires 0 <= k < |items| => Repr(items[k]))) + "]"
  }

  /** Python `repr()`: differs from `str()` only on strings. */
  function Repr(c: Cell): (r: string)
    decreases c, 1
  {
    if c.Str? then QuoteString(c.s) else ToText(c)
  }

  /** The text of a list is bracketed. */
  lemma ListText(items: seq<Cell>)
    ensures var t := ToText(List(items));
            |t| >= 2 && t[0] == '[' && t[|t| - 1] == ']'
  {
  }

  /** A printable character that needs no escape. */
  predicate Plain(c: char, quote: char) {
    ' ' <= c && c != '\U{7F}' && c != '\\' && c != quote
  }

  /** Text made of characters that need no escape is shown as it is. */
  lemma {:induction false} EscapePlain(s: string, quote: char)
    requires forall i :: 0 <= i < |s| ==> Plain(s[i], quote)
    ensures Escape(s, quote) == s
  {
    if s != [] {
      EscapePlain(s[1..], quote);
      assert [s[0]] + s[1..] == s;
    }
  }

  /** `str()` of a list shows each element's `repr()`, separated by ", ":
      strings are quoted, the other cells appear as their `str()`. */
  lemma ListTextMixed()
    ensures ToText(List([Str("a"), Null, Int(1)])) == "['a', None, 1]"
  {
    var items := [Str("a"), Null, Int(1)];
    assert '\'' !in "a";
    EscapePlain("a", '\'');
    assert Repr(Str("a")) == "'a'";
    assert Repr(Int(1)) == "1";
    var parts := ["'a'", "None", "1"];
    assert seq(|items|, k requires 0 <= k < |items| => Repr(items[k])) == parts;
    assert parts[1..] == ["None", "1"] && parts[1..][1..] == ["1"];
  }

  /** A string holding a single quote and no double quote is shown in
      double quotes. */
  lemma ReprSingleQuote(t: string)
    requires t == "it's"
    ensures Repr(Str(t)) == "\"it's\""
  {
    assert t[2] == '\'';
    assert '"' !in t;
    EscapePlain(t, '"');
  }

  lemma ListTextQuote()
    ensures ToText(List([Str("it's")])) == "[\"it's\"]"
  {
    var items := [Str("it's")];
    ReprSingleQuote("it's");
    assert seq(|items|, k requires 0 <= k < |items| => Repr(items[k])) == ["\"it's\""];
  }

  /** The empty list, and booleans and NaN inside a list. */
  lemma ListTextScalars()
    ensures ToText(List([])) == "[]"
    ensures ToText(List([Bool(true), NaN])) == "[True, nan]"
  {
    var items := [Bool(true), NaN];
    var parts := ["True", "nan"];
    assert seq(|items|, k requires 0 <= k < |items| => Repr(items[k])) == parts;
    assert parts[1..] == ["nan"];
  }
}
