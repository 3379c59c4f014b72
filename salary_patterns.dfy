/** The five salary regular expressions of `SALARY_PATTERNS`, as explicit
    recognisers with the semantics of Python's `re.search` under
    `re.IGNORECASE`:

      0  \$\s*(A)\s*[-–to]+\s*\$?\s*(A)       A = \d{1,3}(?:,\d{3})*(?:\.\d{2})?
      1  \$\s*(\d{1,3})k\s*[-–to]+\s*\$?\s*(\d{1,3})k
      2  (\d{1,3})k?\s*[-–to]+\s*(\d{1,3})k
      3  \$\s*(\d{1,3}(?:,\d{3})*)
      4  (\d{1,3})k(?:\s|/|$)

    Each pattern has two definitions. The recogniser `AtN` follows the path
    a backtracking matcher tries first: every greedy quantifier takes as much
    as it can, every optional part is taken, the first alternative wins. The
    language `LangN` says declaratively which spans, with which capture
    groups, the pattern matches. Each recogniser is sound (what it returns
    is in the language) and complete (when the language has any match
    starting at a position, the recogniser succeeds there). Completeness is
    why the first path is the matcher's answer: it never has to backtrack
    out of it. */
module SalaryPatterns {
  import opened Wrappers
  import opened Text

  const EnDash: char := '\U{2013}'

  /** The class `[-–to]` under IGNORECASE: a set of six characters, not the
      word "to". */
  predicate IsSepChar(c: char) {
    c == '-' || c == EnDash || c == 't' || c == 'T' || c == 'o' || c == 'O'
  }

  /** The literal `k` under IGNORECASE: every character whose lower case is
      'k'. */
  predicate IsK(c: char) {
    c == 'k' || c == 'K' || c == KelvinSign
  }

  type PatternIndex = k: nat | k < 5

  /** Start and end (exclusive) of a capture group. */
  datatype Span = Span(lo: nat, hi: nat)

  /** A match: the span of the whole match (`group(0)`) and the spans of the
      capture groups in order (`groups()`). */
  datatype Match = Match(start: nat, end: nat, groups: seq<Span>)

  predicate WellFormed(s: string, m: Match) {
    m.start <= m.end <= |s| &&
    forall g :: g in m.groups ==> g.lo <= g.hi <= |s|
  }

  /** Number of capture groups of a pattern. */
  function GroupCount(k: PatternIndex): nat {
    if k < 3 then 2 else 1
  }

  // ---------------------------------------------------------------------
  // Single-position tests

  predicate DollarAt(s: string, i: nat) {
    i < |s| && s[i] == '$'
  }

  predicate KAt(s: string, i: nat) {
    i < |s| && IsK(s[i])
  }

  predicate DigitAt(s: string, i: nat) {
    i < |s| && IsDigit(s[i])
  }

  predicate SpaceAt(s: string, i: nat) {
    i < |s| && IsSpace(s[i])
  }

  predicate SepAt(s: string, i: nat) {
    i < |s| && IsSepChar(s[i])
  }

  /** `,\d{3}` at index i. */
  predicate GroupAt(s: string, i: nat) {
    i + 4 <= |s| && s[i] == ',' && IsDigit(s[i + 1]) && IsDigit(s[i + 2]) && IsDigit(s[i + 3])
  }

  /** `\.\d{2}` at index i. */
  predicate CentsAt(s: string, i: nat) {
    i + 3 <= |s| && s[i] == '.' && IsDigit(s[i + 1]) && IsDigit(s[i + 2])
  }

  // ---------------------------------------------------------------------
  // Declarative elements: the spans each element of a pattern matches

  /** `\s*` matches s[i..j]. */
  ghost predicate Spaces(s: string, i: nat, j: nat) {
    i <= j <= |s| && forall q {:trigger IsSpace(s[q])} :: i <= q < j ==> IsSpace(s[q])
  }

  /** `[-–to]*` matches s[i..j]. */
  ghost predicate SepRun(s: string, i: nat, j: nat) {
    i <= j <= |s| && forall q {:trigger IsSepChar(s[q])} :: i <= q < j ==> IsSepChar(s[q])
  }

  /** `\d{0,n}` matches s[i..j]. */
  ghost predicate DigitRun(s: string, i: nat, j: nat, n: nat) {
    i <= j <= |s| && j <= i + n && forall q {:trigger IsDigit(s[q])} :: i <= q < j ==> IsDigit(s[q])
  }

  /** `\d{1,3}` matches s[i..j]. */
  ghost predicate Digits(s: string, i: nat, j: nat) {
    i < j && DigitRun(s, i, j, 3)
  }

  /** `(?:,\d{3})*` matches s[i..j]. */
  ghost predicate Groups(s: string, i: nat, j: nat)
    decreases |s| - i
  {
    i <= j <= |s| && (i == j || (GroupAt(s, i) && Groups(s, i + 4, j)))
  }

  /** `(?:\.\d{2})?` matches s[i..j]. */
  ghost predicate Cents(s: string, i: nat, j: nat) {
    i <= |s| && (j == i || (j == i + 3 && CentsAt(s, i)))
  }

  /** `\d{1,3}(?:,\d{3})*` matches s[i..j], its leading digits ending at k. */
  ghost predicate Whole(s: string, i: nat, k: nat, j: nat) {
    Digits(s, i, k) && Groups(s, k, j)
  }

  ghost predicate WholeSpan(s: string, i: nat, j: nat) {
    exists k: nat :: Whole(s, i, k, j)
  }

  /** `\d{1,3}(?:,\d{3})*(?:\.\d{2})?` matches s[i..j]. */
  ghost predicate AmountSpan(s: string, i: nat, j: nat) {
    exists m: nat :: WholeSpan(s, i, m) && Cents(s, m, j)
  }

  /** `\d{1,3}k`: the digits are s[i..k] and s[k] is the k. */
  ghost predicate DigitsK(s: string, i: nat, k: nat) {
    Digits(s, i, k) && KAt(s, k)
  }

  /** `\$\s*` matches s[p..a]. */
  ghost predicate Lead(s: string, p: nat, a: nat) {
    DollarAt(s, p) && Spaces(s, p + 1, a)
  }

  /** `\s*[-–to]+\s*` matches s[i..j], the separators being s[a..c]. */
  ghost predicate PlainSep(s: string, i: nat, a: nat, c: nat, j: nat) {
    Spaces(s, i, a) && a < c && SepRun(s, a, c) && Spaces(s, c, j)
  }

  ghost predicate PlainSepSpan(s: string, i: nat, j: nat) {
    exists a: nat, c: nat :: PlainSep(s, i, a, c, j)
  }

  /** `\$?` matches s[i..j]. */
  ghost predicate OptDollar(s: string, i: nat, j: nat) {
    i <= |s| && (j == i || (j == i + 1 && DollarAt(s, i)))
  }

  /** `k?` matches s[i..j]. */
  ghost predicate OptK(s: string, i: nat, j: nat) {
    i <= |s| && (j == i || (j == i + 1 && KAt(s, i)))
  }

  /** `\s*[-–to]+\s*\$?\s*` matches s[i..j]. */
  ghost predicate RangeSepSpan(s: string, i: nat, j: nat) {
    exists x: nat, y: nat :: PlainSepSpan(s, i, x) && OptDollar(s, x, y) && Spaces(s, y, j)
  }

  /** `k?\s*[-–to]+\s*` matches s[i..j]. */
  ghost predicate OptKSepSpan(s: string, i: nat, j: nat) {
    exists b: nat :: OptK(s, i, b) && PlainSepSpan(s, b, j)
  }

  /** `(?:\s|/|$)` matches s[i..j]; `$` holds at the end of the text and
      just before a final newline. */
  ghost predicate Terminator(s: string, i: nat, j: nat) {
    (j == i + 1 && i < |s| && (IsSpace(s[i]) || s[i] == '/')) ||
    (j == i && (i == |s| || (i + 1 == |s| && s[i] == '\n')))
  }

  // ---------------------------------------------------------------------
  // The five patterns as languages

  ghost predicate Lang0(s: string, m: Match) {
    |m.groups| == 2 &&
    var g, h := m.groups[0], m.groups[1];
    Lead(s, m.start, g.lo) && AmountSpan(s, g.lo, g.hi) &&
    RangeSepSpan(s, g.hi, h.lo) && AmountSpan(s, h.lo, h.hi) && m.end == h.hi
  }

  ghost predicate Lang1(s: string, m: Match) {
    |m.groups| == 2 &&
    var g, h := m.groups[0], m.groups[1];
    Lead(s, m.start, g.lo) && DigitsK(s, g.lo, g.hi) &&
    RangeSepSpan(s, g.hi + 1, h.lo) && DigitsK(s, h.lo, h.hi) && m.end == h.hi + 1
  }

  ghost predicate Lang2(s: string, m: Match) {
    |m.groups| == 2 &&
    var g, h := m.groups[0], m.groups[1];
    g.lo == m.start && Digits(s, g.lo, g.hi) &&
    OptKSepSpan(s, g.hi, h.lo) && DigitsK(s, h.lo, h.hi) && m.end == h.hi + 1
  }

  ghost predicate Lang3(s: string, m: Match) {
    |m.groups| == 1 &&
    var g := m.groups[0];
    Lead(s, m.start, g.lo) && WholeSpan(s, g.lo, g.hi) && m.end == g.hi
  }

  ghost predicate Lang4(s: string, m: Match) {
    |m.groups| == 1 &&
    var g := m.groups[0];
    g.lo == m.start && DigitsK(s, g.lo, g.hi) && Terminator(s, g.hi + 1, m.end)
  }

  /** Pattern k matches s[m.start..m.end] with capture spans m.groups. */
  ghost predicate Lang(k: PatternIndex, s: string, m: Match) {
    match k
    case 0 => Lang0(s, m)
    case 1 => Lang1(s, m)
    case 2 => Lang2(s, m)
    case 3 => Lang3(s, m)
    case 4 => Lang4(s, m)
  }

  // ---------------------------------------------------------------------
  // Greedy scanners for the elements

  /** End of the longest run of white space from i (`\s*`). */
  function SpaceEnd(s: string, i: nat): (j: nat)
    requires i <= |s|
    ensures Spaces(s, i, j) && !SpaceAt(s, j)
    decreases |s| - i
  {
    if i < |s| && IsSpace(s[i]) then SpaceEnd(s, i + 1) else i
  }

  /** End of the longest run of separator characters from i. */
  function SepEnd(s: string, i: nat): (j: nat)
    requires i <= |s|
    ensures SepRun(s, i, j) && !SepAt(s, j)
    decreases |s| - i
  {
    if i < |s| && IsSepChar(s[i]) then SepEnd(s, i + 1) else i
  }

  /** End of the longest run of at most n digits from i. */
  function DigitsEnd(s: string, i: nat, n: nat): (j: nat)
    requires i <= |s|
    ensures DigitRun(s, i, j, n) && (j == i + n || !DigitAt(s, j))
    decreases n
  {
    if n > 0 && i < |s| && IsDigit(s[i]) then DigitsEnd(s, i + 1, n - 1) else i
  }

  /** End of the longest repetition of `,\d{3}` from i. */
  function GroupsEnd(s: string, i: nat): (j: nat)
    requires i <= |s|
    ensures Groups(s, i, j) && !GroupAt(s, j)
    decreases |s| - i
  {
    if GroupAt(s, i) then GroupsEnd(s, i + 4) else i
  }

  /** End of `\d{1,3}(?:,\d{3})*` from i; None when no digit is there. */
  function WholeEnd(s: string, i: nat): (r: Option<nat>)
    requires i <= |s|
    ensures r.Some? <==> DigitAt(s, i)
    ensures r.Some? ==> WholeSpan(s, i, r.value)
  {
    var k := DigitsEnd(s, i, 3);
    if k == i then None
    else
      var j := GroupsEnd(s, k);
      assert Whole(s, i, k, j);
      Some(j)
  }

  /** End of `\d{1,3}(?:,\d{3})*(?:\.\d{2})?` from i. */
  function AmountEnd(s: string, i: nat): (r: Option<nat>)
    requires i <= |s|
    ensures r.Some? <==> DigitAt(s, i)
    ensures r.Some? ==> AmountSpan(s, i, r.value)
  {
    match WholeEnd(s, i)
    case None => None
    case Some(m) =>
      var j := if CentsAt(s, m) then m + 3 else m;
      assert WholeSpan(s, i, m) && Cents(s, m, j);
      Some(j)
  }

  /** End of `\d{1,3}k`'s digits from i. */
  function DigitsKEnd(s: string, i: nat): (r: Option<nat>)
    requires i <= |s|
    ensures r.Some? ==> DigitsK(s, i, r.value)
  {
    var k := DigitsEnd(s, i, 3);
    if k == i || !KAt(s, k) then None else Some(k)
  }

  /** End of `\$\s*` from p. */
  function LeadEnd(s: string, p: nat): (r: Option<nat>)
    requires p <= |s|
    ensures r.Some? ==> Lead(s, p, r.value)
  {
    if DollarAt(s, p) then Some(SpaceEnd(s, p + 1)) else None
  }

  /** End of `\s*[-–to]+\s*` from i. */
  function PlainSepEnd(s: string, i: nat): (r: Option<nat>)
    requires i <= |s|
    ensures r.Some? ==> PlainSepSpan(s, i, r.value)
  {
    var a := SpaceEnd(s, i);
    var c := SepEnd(s, a);
    if c == a then None
    else
      var j := SpaceEnd(s, c);
      assert PlainSep(s, i, a, c, j);
      Some(j)
  }

  /** End of `\s*[-–to]+\s*\$?\s*` from i. */
  function RangeSepEnd(s: string, i: nat): (r: Option<nat>)
    requires i <= |s|
    ensures r.Some? ==> RangeSepSpan(s, i, r.value)
  {
    match PlainSepEnd(s, i)
    case None => None
    case Some(x) =>
      var y := if DollarAt(s, x) then x + 1 else x;
      var j := SpaceEnd(s, y);
      assert PlainSepSpan(s, i, x) && OptDollar(s, x, y) && Spaces(s, y, j);
      Some(j)
  }

  /** End of `k?\s*[-–to]+\s*` from i. */
  function OptKSepEnd(s: string, i: nat): (r: Option<nat>)
    requires i <= |s|
    ensures r.Some? ==> OptKSepSpan(s, i, r.value)
  {
    var b := if KAt(s, i) then i + 1 else i;
    match PlainSepEnd(s, b)
    case None => None
    case Some(j) =>
      assert OptK(s, i, b);
      Some(j)
  }

  /** End of `(?:\s|/|$)` from i, the alternatives tried in order. */
  function TerminatorEnd(s: string, i: nat): (r: Option<nat>)
    requires i <= |s|
    ensures r.Some? ==> Terminator(s, i, r.value)
  {
    if i < |s| && (IsSpace(s[i]) || s[i] == '/') then Some(i + 1)
    else if i == |s| || (i + 1 == |s| && s[i] == '\n') then Some(i)
    else None
  }

  // ---------------------------------------------------------------------
  // The five recognisers

  function At0(s: string, p: nat): (r: Option<Match>)
    requires p <= |s|
    ensures r.Some? ==> r.value.start == p && Lang0(s, r.value)
  {
    match LeadEnd(s, p)
    case None => None
    case Some(a) =>
      match AmountEnd(s, a)
      case None => None
      case Some(b) =>
        match RangeSepEnd(s, b)
        case None => None
        case Some(z) =>
          match AmountEnd(s, z)
          case None => None
          case Some(e) => Some(Match(p, e, [Span(a, b), Span(z, e)]))
  }

  function At1(s: string, p: nat): (r: Option<Match>)
    requires p <= |s|
    ensures r.Some? ==> r.value.start == p && Lang1(s, r.value)
  {
    match LeadEnd(s, p)
    case None => None
    case Some(a) =>
      match DigitsKEnd(s, a)
      case None => None
      case Some(b) =>
        match RangeSepEnd(s, b + 1)
        case None => None
        case Some(z) =>
          match DigitsKEnd(s, z)
          case None => None
          case Some(f) => Some(Match(p, f + 1, [Span(a, b), Span(z, f)]))
  }

  function At2(s: string, p: nat): (r: Option<Match>)
    requires p <= |s|
    ensures r.Some? ==> r.value.start == p && Lang2(s, r.value)
  {
    var b := DigitsEnd(s, p, 3);
    if b == p then None
    else
      match OptKSepEnd(s, b)
      case None => None
      case Some(z) =>
        match DigitsKEnd(s, z)
        case None => None
        case Some(f) => Some(Match(p, f + 1, [Span(p, b), Span(z, f)]))
  }

  function At3(s: string, p: nat): (r: Option<Match>)
    requires p <= |s|
    ensures r.Some? ==> r.value.start == p && Lang3(s, r.value)
  {
    match LeadEnd(s, p)
    case None => None
    case Some(a) =>
      match WholeEnd(s, a)
      case None => None
      case Some(e) => Some(Match(p, e, [Span(a, e)]))
  }

  function At4(s: string, p: nat): (r: Option<Match>)
    requires p <= |s|
    ensures r.Some? ==> r.value.start == p && Lang4(s, r.value)
  {
    match DigitsKEnd(s, p)
    case None => None
    case Some(b) =>
      match TerminatorEnd(s, b + 1)
      case None => None
      case Some(e) => Some(Match(p, e, [Span(p, b)]))
  }

  /** The `match` operation of pattern k at position p. */
  function MatchAt(k: PatternIndex, s: string, p: nat): (r: Option<Match>)
    requires p <= |s|
  {
    match k
    case 0 => At0(s, p)
    case 1 => At1(s, p)
    case 2 => At2(s, p)
    case 3 => At3(s, p)
    case 4 => At4(s, p)
  }

  /** The recogniser's answer at each position of the text, 0 to |s|, in
      the order `re.search` tries them. */
  function Attempts(k: PatternIndex, s: string): (a: seq<Option<Match>>)
    ensures |a| == |s| + 1
  {
    seq(|s| + 1, q requires 0 <= q <= |s| => MatchAt(k, s, q))
  }

  /** The first answer from position p on that is a match. */
  function FirstFrom(a: seq<Option<Match>>, p: nat): Option<Match>
    requires p <= |a|
    decreases |a| - p
  {
    if p == |a| then None
    else if a[p].Some? then a[p]
    else FirstFrom(a, p + 1)
  }

  /** `re.search`: the first position where the pattern matches. */
  function Search(k: PatternIndex, s: string): Option<Match> {
    FirstFrom(Attempts(k, s), 0)
  }

  // ---------------------------------------------------------------------
  // Exactness of the scanners: a greedy scan ends where a declared run ends
  // when the next character cannot continue the run

  lemma SpaceEndExact(s: string, i: nat, j: nat)
    requires Spaces(s, i, j) && !SpaceAt(s, j)
    ensures SpaceEnd(s, i) == j
    decreases j - i
  {
    if i < j {
      SpaceEndExact(s, i + 1, j);
    }
  }

  lemma SepEndExact(s: string, i: nat, j: nat)
    requires SepRun(s, i, j) && !SepAt(s, j)
    ensures SepEnd(s, i) == j
    decreases j - i
  {
    if i < j {
      SepEndExact(s, i + 1, j);
    }
  }

  lemma DigitsEndExact(s: string, i: nat, j: nat)
    requires Digits(s, i, j) && (j == i + 3 || !DigitAt(s, j))
    ensures DigitsEnd(s, i, 3) == j
  {
  }

  lemma {:induction false} GroupsEndExact(s: string, i: nat, j: nat)
    requires Groups(s, i, j) && !GroupAt(s, j)
    ensures GroupsEnd(s, i) == j
    decreases |s| - i
  {
    if i != j {
      GroupsEndExact(s, i + 4, j);
    }
  }

  /** A character that may follow an amount which the pattern continues
      after: none of a digit, a comma or a point. */
  predicate EndsAmount(s: string, j: nat) {
    j < |s| && !IsDigit(s[j]) && s[j] != ',' && s[j] != '.'
  }

  lemma AmountEndExact(s: string, i: nat, j: nat)
    requires AmountSpan(s, i, j) && EndsAmount(s, j)
    ensures AmountEnd(s, i) == Some(j)
  {
    var m: nat :| WholeSpan(s, i, m) && Cents(s, m, j);
    var k: nat :| Whole(s, i, k, m);
    assert k == i + 3 || !DigitAt(s, k) by {
      if k < m {
        assert GroupAt(s, k);
      } else if m < j {
        assert CentsAt(s, m);
      }
    }
    DigitsEndExact(s, i, k);
    assert !GroupAt(s, m) by {
      if m < j {
        assert CentsAt(s, m);
      }
    }
    GroupsEndExact(s, k, m);
    assert CentsAt(s, m) <==> m < j;
  }

  lemma DigitsKExact(s: string, i: nat, k: nat)
    requires DigitsK(s, i, k)
    ensures DigitsKEnd(s, i) == Some(k) && k < |s|
  {
    DigitsEndExact(s, i, k);
  }

  lemma LeadExact(s: string, p: nat, a: nat)
    requires Lead(s, p, a) && DigitAt(s, a)
    ensures LeadEnd(s, p) == Some(a) && p < |s|
  {
    SpaceEndExact(s, p + 1, a);
  }

  /** A separator run starts with white space or a separator character. */
  lemma PlainSepStarts(s: string, i: nat, j: nat)
    requires PlainSepSpan(s, i, j)
    ensures SpaceAt(s, i) || SepAt(s, i)
  {
    var a: nat, c: nat :| PlainSep(s, i, a, c, j);
    if i == a {
      assert IsSepChar(s[a]);
    }
  }

  lemma PlainSepExact(s: string, i: nat, j: nat)
    requires PlainSepSpan(s, i, j) && !SpaceAt(s, j) && !SepAt(s, j)
    ensures PlainSepEnd(s, i) == Some(j)
  {
    var a: nat, c: nat :| PlainSep(s, i, a, c, j);
    assert IsSepChar(s[a]);
    SpaceEndExact(s, i, a);
    assert !SepAt(s, c) by {
      if c < j {
        assert IsSpace(s[c]);
      }
    }
    SepEndExact(s, a, c);
    SpaceEndExact(s, c, j);
  }

  lemma RangeSepStarts(s: string, i: nat, j: nat)
    requires RangeSepSpan(s, i, j)
    ensures SpaceAt(s, i) || SepAt(s, i)
  {
    var x: nat, y: nat :| PlainSepSpan(s, i, x) && OptDollar(s, x, y) && Spaces(s, y, j);
    PlainSepStarts(s, i, x);
  }

  lemma RangeSepExact(s: string, i: nat, j: nat)
    requires RangeSepSpan(s, i, j) && DigitAt(s, j)
    ensures RangeSepEnd(s, i) == Some(j)
  {
    var x: nat, y: nat :| PlainSepSpan(s, i, x) && OptDollar(s, x, y) && Spaces(s, y, j);
    if y == x + 1 {
      PlainSepExact(s, i, x);
      SpaceEndExact(s, y, j);
    } else {
      var a: nat, c: nat :| PlainSep(s, i, a, c, x);
      assert PlainSep(s, i, a, c, j);
      PlainSepExact(s, i, j);
      SpaceEndExact(s, j, j);
    }
  }

  lemma OptKSepStarts(s: string, i: nat, j: nat)
    requires OptKSepSpan(s, i, j)
    ensures !DigitAt(s, i)
  {
    var b: nat :| OptK(s, i, b) && PlainSepSpan(s, b, j);
    if b == i {
      PlainSepStarts(s, b, j);
    }
  }

  lemma OptKSepExact(s: string, i: nat, j: nat)
    requires OptKSepSpan(s, i, j) && DigitAt(s, j)
    ensures OptKSepEnd(s, i) == Some(j)
  {
    var b: nat :| OptK(s, i, b) && PlainSepSpan(s, b, j);
    if b == i {
      PlainSepStarts(s, b, j);
    }
    PlainSepExact(s, b, j);
  }

  // ---------------------------------------------------------------------
  // Greediness of the scanners: a declared run that the pattern does not
  // continue after never ends past the greedy scan

  /** A run of at most three digits ends no later than the greedy scan, and
      earlier only in front of another digit. */
  lemma DigitsPrefix(s: string, i: nat, k: nat)
    requires DigitRun(s, i, k, 3)
    ensures k <= DigitsEnd(s, i, 3)
    ensures k < DigitsEnd(s, i, 3) ==> DigitAt(s, k)
  {
  }

  /** A repetition of `,\d{3}` ends no later than the greedy scan, and
      earlier only in front of another repetition. */
  lemma {:induction false} GroupsPrefix(s: string, i: nat, j: nat)
    requires Groups(s, i, j)
    ensures j <= GroupsEnd(s, i)
    ensures j < GroupsEnd(s, i) ==> GroupAt(s, j)
    decreases |s| - i
  {
    if i != j {
      GroupsPrefix(s, i + 4, j);
    }
  }

  /** `\d{1,3}(?:,\d{3})*` ends no later than the greedy scan, and earlier
      only in front of a digit or a comma group. */
  lemma WholeLongest(s: string, i: nat, j: nat)
    requires WholeSpan(s, i, j)
    ensures WholeEnd(s, i).Some? && j <= WholeEnd(s, i).value
    ensures j < WholeEnd(s, i).value ==> DigitAt(s, j) || GroupAt(s, j)
  {
    var k: nat :| Whole(s, i, k, j);
    DigitsPrefix(s, i, k);
    var d := DigitsEnd(s, i, 3);
    if k == d {
      GroupsPrefix(s, k, j);
    }
  }

  /** An amount ends no later than the greedy scan. */
  lemma AmountLongest(s: string, i: nat, j: nat)
    requires AmountSpan(s, i, j)
    ensures AmountEnd(s, i).Some? && j <= AmountEnd(s, i).value
  {
    var m: nat :| WholeSpan(s, i, m) && Cents(s, m, j);
    WholeLongest(s, i, m);
  }

  /** `(?:\s|/|$)` ends no later than the alternatives tried in order: a
      final newline is taken by `\s` before `$` is tried. */
  lemma TerminatorLongest(s: string, i: nat, j: nat)
    requires Terminator(s, i, j)
    ensures TerminatorEnd(s, i).Some? && j <= TerminatorEnd(s, i).value
  {
  }

  // ---------------------------------------------------------------------
  // Completeness of the recognisers

  /** Of two matches at the same start, `r` is the one backtracking prefers
      to `m`: it ends no earlier, and when both end at the same place they
      have the same groups. */
  predicate Covers(r: Match, m: Match) {
    m.end <= r.end && (m.end == r.end ==> m.groups == r.groups)
  }

  lemma At0Complete(s: string, m: Match)
    requires Lang0(s, m)
    ensures m.start <= |s| && At0(s, m.start).Some? && Covers(At0(s, m.start).value, m)
  {
    var g, h := m.groups[0], m.groups[1];
    assert m == Match(m.start, h.hi, [g, h]);
    At0Spans(s, m.start, g.lo, g.hi, h.lo, h.hi);
  }

  /** Where the elements of pattern 0 match one after the other, the
      recogniser returns the same first amount and separator and a second
      amount that ends no earlier. */
  lemma At0Spans(s: string, p: nat, a: nat, b: nat, z: nat, f: nat)
    requires Lead(s, p, a) && AmountSpan(s, a, b) && RangeSepSpan(s, b, z) && AmountSpan(s, z, f)
    ensures p <= |s| && At0(s, p).Some? && Covers(At0(s, p).value, Match(p, f, [Span(a, b), Span(z, f)]))
  {
    LeadExact(s, p, a);
    RangeSepStarts(s, b, z);
    AmountEndExact(s, a, b);
    At0Tail(s, p, a, b, z, f);
  }

  lemma At0Tail(s: string, p: nat, a: nat, b: nat, z: nat, f: nat)
    requires p < |s| && LeadEnd(s, p) == Some(a) && AmountEnd(s, a) == Some(b)
    requires RangeSepSpan(s, b, z) && AmountSpan(s, z, f)
    ensures z <= |s| && AmountEnd(s, z).Some? && f <= AmountEnd(s, z).value
    ensures At0(s, p) == Some(Match(p, AmountEnd(s, z).value, [Span(a, b), Span(z, AmountEnd(s, z).value)]))
  {
    RangeSepExact(s, b, z);
    AmountLongest(s, z, f);
    At0Follows(s, p, a, b, z);
  }

  /** The recogniser of pattern 0 returns its scanners' spans. */
  lemma At0Follows(s: string, p: nat, a: nat, b: nat, z: nat)
    requires p < |s|
    requires LeadEnd(s, p) == Some(a) && AmountEnd(s, a) == Some(b)
    requires RangeSepEnd(s, b) == Some(z) && AmountEnd(s, z).Some?
    ensures At0(s, p) == Some(Match(p, AmountEnd(s, z).value, [Span(a, b), Span(z, AmountEnd(s, z).value)]))
  {
  }

  /** Pattern 1 ends with a `k`, so its match at a start is unique. */
  lemma At1Complete(s: string, m: Match)
    requires Lang1(s, m)
    ensures m.start <= |s| && At1(s, m.start) == Some(m)
  {
    var g, h := m.groups[0], m.groups[1];
    assert m == Match(m.start, h.hi + 1, [g, h]);
    At1Spans(s, m.start, g.lo, g.hi, h.lo, h.hi);
  }

  /** The recogniser of pattern 1 returns the spans of the pattern's
      elements where they match one after the other. */
  lemma At1Spans(s: string, p: nat, a: nat, b: nat, z: nat, f: nat)
    requires Lead(s, p, a) && DigitsK(s, a, b) && RangeSepSpan(s, b + 1, z) && DigitsK(s, z, f)
    ensures p <= |s| && At1(s, p) == Some(Match(p, f + 1, [Span(a, b), Span(z, f)]))
  {
    LeadExact(s, p, a);
    DigitsKExact(s, a, b);
    At1Tail(s, p, a, b, z, f);
  }

  lemma At1Tail(s: string, p: nat, a: nat, b: nat, z: nat, f: nat)
    requires p < |s| && b < |s| && LeadEnd(s, p) == Some(a) && DigitsKEnd(s, a) == Some(b)
    requires RangeSepSpan(s, b + 1, z) && DigitsK(s, z, f)
    ensures At1(s, p) == Some(Match(p, f + 1, [Span(a, b), Span(z, f)]))
  {
    RangeSepExact(s, b + 1, z);
    DigitsKExact(s, z, f);
    At1Follows(s, p, a, b, z, f);
  }

  /** The recogniser of pattern 1 returns its scanners' spans. */
  lemma At1Follows(s: string, p: nat, a: nat, b: nat, z: nat, f: nat)
    requires p < |s| && b < |s|
    requires LeadEnd(s, p) == Some(a) && DigitsKEnd(s, a) == Some(b)
    requires RangeSepEnd(s, b + 1) == Some(z) && DigitsKEnd(s, z) == Some(f)
    ensures At1(s, p) == Some(Match(p, f + 1, [Span(a, b), Span(z, f)]))
  {
  }

  /** Pattern 2 ends with a `k`, so its match at a start is unique. */
  lemma At2Complete(s: string, m: Match)
    requires Lang2(s, m)
    ensures m.start <= |s| && At2(s, m.start) == Some(m)
  {
    var g, h := m.groups[0], m.groups[1];
    OptKSepStarts(s, g.hi, h.lo);
    DigitsEndExact(s, g.lo, g.hi);
    OptKSepExact(s, g.hi, h.lo);
    DigitsKExact(s, h.lo, h.hi);
    assert m.groups == [g, h];
  }

  lemma At3Complete(s: string, m: Match)
    requires Lang3(s, m)
    ensures m.start <= |s| && At3(s, m.start).Some? && Covers(At3(s, m.start).value, m)
  {
    var g := m.groups[0];
    LeadExact(s, m.start, g.lo);
    WholeLongest(s, g.lo, g.hi);
    assert m.groups == [g];
  }

  lemma At4Complete(s: string, m: Match)
    requires Lang4(s, m)
    ensures m.start <= |s| && At4(s, m.start).Some? && Covers(At4(s, m.start).value, m)
  {
    var g := m.groups[0];
    DigitsKExact(s, g.lo, g.hi);
    TerminatorLongest(s, g.hi + 1, m.end);
    assert m.groups == [g];
  }

  /** What the recogniser of pattern k returns at p is a match of the
      pattern's language that starts at p. */
  lemma MatchAtSound(k: PatternIndex, s: string, p: nat)
    requires p <= |s| && MatchAt(k, s, p).Some?
    ensures MatchAt(k, s, p).value.start == p && Lang(k, s, MatchAt(k, s, p).value)
  {
  }

  /** Where the language of pattern k has a match, the recogniser succeeds
      at the match's start, with a match that ends no earlier and that has
      the same groups when it ends at the same place. */
  lemma MatchAtComplete(k: PatternIndex, s: string, m: Match)
    requires Lang(k, s, m)
    ensures m.start <= |s| && MatchAt(k, s, m.start).Some?
    ensures Covers(MatchAt(k, s, m.start).value, m)
  {
    match k
    case 0 => At0Complete(s, m);
    case 1 => At1Complete(s, m);
    case 2 => At2Complete(s, m);
    case 3 => At3Complete(s, m);
    case 4 => At4Complete(s, m);
  }

  /** Every match of a language is well formed and has the pattern's number
      of capture groups. */
  lemma LangShape(k: PatternIndex, s: string, m: Match)
    requires Lang(k, s, m)
    ensures WellFormed(s, m) && |m.groups| == GroupCount(k)
  {
    match k
    case 0 =>
      var g, h := m.groups[0], m.groups[1];
      var x: nat :| WholeSpan(s, g.lo, x) && Cents(s, x, g.hi);
      var y: nat :| WholeSpan(s, h.lo, y) && Cents(s, y, h.hi);
    case 1 =>
    case 2 =>
    case 3 =>
    case 4 =>
  }

  // ---------------------------------------------------------------------
  // Search

  /** A first answer that is a match is found at some position q, and
      every earlier position answered None. */
  lemma {:induction false} FirstFromFound(a: seq<Option<Match>>, p: nat) returns (q: nat)
    requires p <= |a| && FirstFrom(a, p).Some?
    ensures p <= q < |a| && a[q] == FirstFrom(a, p)
    ensures forall j :: p <= j < q ==> a[j].None?
    decreases |a| - p
  {
    if a[p].Some? {
      q := p;
    } else {
      q := FirstFromFound(a, p + 1);
    }
  }

  /** When no answer from p on is a match, every one of them is None. */
  lemma {:induction false} FirstFromNone(a: seq<Option<Match>>, p: nat)
    requires p <= |a| && FirstFrom(a, p).None?
    ensures forall j :: p <= j < |a| ==> a[j].None?
    decreases |a| - p
  {
    if p < |a| {
      FirstFromNone(a, p + 1);
    }
  }

  /** Positions where the recogniser fails are passed over. */
  lemma {:induction false} FirstFromSkips(a: seq<Option<Match>>, p: nat, q: nat)
    requires p <= q <= |a|
    requires forall j :: p <= j < q ==> a[j].None?
    ensures FirstFrom(a, p) == FirstFrom(a, q)
    decreases q - p
  {
    if p < q {
      FirstFromSkips(a, p + 1, q);
    }
  }

  /** `re.search` reports the recogniser's match at the first position where
      it succeeds. */
  lemma SearchFinds(k: PatternIndex, s: string, p: nat)
    requires p <= |s| && MatchAt(k, s, p).Some?
    requires forall q :: 0 <= q < p ==> MatchAt(k, s, q).None?
    ensures Search(k, s) == MatchAt(k, s, p)
  {
    var a := Attempts(k, s);
    FirstFromSkips(a, 0, p);
    assert a[p] == MatchAt(k, s, p);
  }

  /** `re.search` fails when the recogniser succeeds nowhere. */
  lemma SearchFails(k: PatternIndex, s: string)
    requires forall q :: 0 <= q <= |s| ==> MatchAt(k, s, q).None?
    ensures Search(k, s) == None
  {
    FirstFromSkips(Attempts(k, s), 0, |s| + 1);
  }

  /** A match of the pattern's language that runs to the end of the text is
      what `re.search` reports, once the recogniser fails everywhere before
      its start. */
  lemma SearchReportsToEnd(k: PatternIndex, s: string, m: Match)
    requires Lang(k, s, m) && m.end == |s|
    requires forall q :: 0 <= q < m.start ==> MatchAt(k, s, q).None?
    ensures Search(k, s) == Some(m)
  {
    MatchAtComplete(k, s, m);
    MatchAtSound(k, s, m.start);
    LangShape(k, s, MatchAt(k, s, m.start).value);
    SearchFinds(k, s, m.start);
  }

  /** The match a backtracking search reports for pattern k: one of the
      pattern's matches that starts no later than any other, and that ends
      no earlier than any other at its start, with the same groups as one
      ending at the same place. */
  ghost predicate LeftmostLongest(k: PatternIndex, s: string, m: Match) {
    Lang(k, s, m) &&
    forall m' :: Lang(k, s, m') ==> m.start <= m'.start && (m'.start == m.start ==> Covers(m, m'))
  }

  /** At most one match is leftmost and longest. */
  lemma LeftmostLongestUnique(k: PatternIndex, s: string, m1: Match, m2: Match)
    requires LeftmostLongest(k, s, m1) && LeftmostLongest(k, s, m2)
    ensures m1 == m2
  {
    assert m1.start <= m2.start && m2.start <= m1.start;
    assert Covers(m1, m2) && Covers(m2, m1);
  }

  /** `re.search` finds the leftmost match, and the longest one at its
      start: the search fails iff the pattern's language has no match in the
      text, and a match it finds is leftmost and longest, well formed, and
      has the pattern's number of groups. */
  lemma SearchLeftmost(k: PatternIndex, s: string)
    ensures Search(k, s) == None <==> forall m :: !Lang(k, s, m)
    ensures Search(k, s).Some? ==>
              var m := Search(k, s).value;
              LeftmostLongest(k, s, m) && WellFormed(s, m) && |m.groups| == GroupCount(k)
  {
    var a := Attempts(k, s);
    if Search(k, s).Some? {
      var q := FirstFromFound(a, 0);
      var m := Search(k, s).value;
      assert a[q] == MatchAt(k, s, q);
      MatchAtSound(k, s, q);
      LangShape(k, s, m);
      forall m' | Lang(k, s, m')
        ensures m.start <= m'.start && (m'.start == m.start ==> Covers(m, m'))
      {
        MatchAtComplete(k, s, m');
        assert a[m'.start] == MatchAt(k, s, m'.start);
      }
    } else {
      FirstFromNone(a, 0);
      forall m | Lang(k, s, m)
        ensures false
      {
        LangShape(k, s, m);
        assert a[m.start] == MatchAt(k, s, m.start);
        MatchAtComplete(k, s, m);
      }
    }
  }
}
