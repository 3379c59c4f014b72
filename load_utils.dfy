/** The salary helpers of `LoadUtils`: keyword detection, extraction of the
    first salary match, conversion of the captured amounts to numbers, and
    the minimum-salary test. Amounts are exact real numbers; the source's
    floats round decimals with cents and integers beyond 2^53. */
module LoadUtils {
  import opened Wrappers
  import opened Text
  import opened SalaryPatterns

  /** The description argument: Python `None`, a float NaN (a missing cell
      of a DataFrame) or a string. */
  datatype Description = Absent | NotANumber | Text(text: string)

  /** `LoadUtils.salary_keywords`, in source order. */
  const SalaryKeywords: seq<string> := [
    "salary", "compensation", "pay", "wage",
    "$", "\U{20AC}", "\U{A3}", "\U{A5}", "usd", "eur", "gbp",
    "k/year", "k per year", "k annually",
    "/year", "/yr", "per year", "annually",
    "/hour", "/hr", "per hour", "hourly",
    "base pay", "total comp", "cash compensation",
    "range:", "paying", "offered", "Base pay:", "Salary range",
    "100k", "150k", "200k", "160K", "250K", "300K"
  ]

  /** The keywords that hold an upper-case letter. They are compared with a
      lower-cased text, so they can never be found. */
  const MixedCaseKeywords: seq<string> := ["Base pay:", "Salary range", "160K", "250K", "300K"]

  /** The keywords that can be found: all the others. */
  const EffectiveKeywords: seq<string> := [
    "salary", "compensation", "pay", "wage",
    "$", "\U{20AC}", "\U{A3}", "\U{A5}", "usd", "eur", "gbp",
    "k/year", "k per year", "k annually",
    "/year", "/yr", "per year", "annually",
    "/hour", "/hr", "per hour", "hourly",
    "base pay", "total comp", "cash compensation",
    "range:", "paying", "offered",
    "100k", "150k", "200k"
  ]

  /** Python truthiness of the description, together with `pd.isna`: only a
      non-empty string passes `not description or pd.isna(description)`. */
  predicate NonEmptyText(d: Description) {
    d.Text? && d.text != ""
  }

  /** `has_salary_info`: some keyword occurs in the lower-cased text. */
  function HasSalaryInfo(d: Description): (r: bool)
    ensures r ==> NonEmptyText(d)
  {
    NonEmptyText(d) && exists kw :: kw in SalaryKeywords && Contains(Lower(d.text), kw)
  }

  lemma MixedCaseKeywordsHaveCapitals()
    ensures forall kw :: kw in MixedCaseKeywords ==> HasUpperAscii(kw)
  {
    assert "Base pay:"[0] == 'B';
    assert "Salary range"[0] == 'S';
    assert "160K"[3] == 'K';
    assert "250K"[3] == 'K';
    assert "300K"[3] == 'K';
  }

  /** The keyword test finds exactly the lower-case keywords: the five
      keywords with capitals never fire. */
  lemma HasSalaryInfoEffective(d: Description)
    ensures HasSalaryInfo(d) <==>
              NonEmptyText(d) && exists kw :: kw in EffectiveKeywords && Contains(Lower(d.text), kw)
  {
    if NonEmptyText(d) {
      var t := Lower(d.text);
      MixedCaseKeywordsHaveCapitals();
      forall kw | kw in MixedCaseKeywords
        ensures !Contains(t, kw)
      {
        LowerHasNoUpper(d.text, kw);
      }
      assert forall kw :: kw in SalaryKeywords ==> kw in EffectiveKeywords || kw in MixedCaseKeywords;
      assert forall kw :: kw in EffectiveKeywords ==> kw in SalaryKeywords;
    }
  }

  // ---------------------------------------------------------------------
  // extract_salary_info

  datatype SalaryInfo = SalaryInfo(hasSalary: bool, salaryText: Option<string>, amount: Option<seq<string>>)

  const NoSalary: SalaryInfo := SalaryInfo(false, None, None)

  /** The first pattern, from index k on, that has a match in s, with its
      leftmost match. */
  function FirstMatchFrom(s: string, k: nat): (r: Option<(PatternIndex, Match)>)
    requires k <= 5
    ensures r.Some? ==> k <= r.value.0 && Search(r.value.0, s) == Some(r.value.1)
    ensures r.Some? ==> forall j: PatternIndex :: k <= j < r.value.0 ==> Search(j, s).None?
    ensures r.None? ==> forall j: PatternIndex :: k <= j ==> Search(j, s).None?
    decreases 5 - k
  {
    if k == 5 then None
    else
      match Search(k, s)
      case Some(m) => Some((k, m))
      case None => FirstMatchFrom(s, k + 1)
  }

  /** The texts of the capture groups of a match, in order (`groups()`). */
  function Captures(s: string, m: Match): (r: seq<string>)
    requires WellFormed(s, m)
    ensures |r| == |m.groups|
    ensures forall i :: 0 <= i < |r| ==> r[i] == s[m.groups[i].lo..m.groups[i].hi]
  {
    seq(|m.groups|, i requires 0 <= i < |m.groups| =>
      assert m.groups[i] in m.groups;
      s[m.groups[i].lo..m.groups[i].hi])
  }

  /** `extract_salary_info`: the first pattern in list order that matches the
      stripped text gives the matched text and the captures; otherwise the
      keyword test on the original description decides `has_salary`. */
  function ExtractSalaryInfo(d: Description): (r: SalaryInfo)
    ensures !d.Text? || Strip(d.text) == "" ==> r == NoSalary
    ensures r.salaryText.Some? <==> r.amount.Some?
    ensures r.salaryText.Some? ==> r.hasSalary
    ensures r.salaryText.None? && d.Text? && Strip(d.text) != "" ==> r.hasSalary == HasSalaryInfo(d)
  {
    match d
    case Absent => NoSalary
    case NotANumber => NoSalary
    case Text(t) =>
      var s := Strip(t);
      if s == "" then NoSalary
      else
        match FirstMatchFrom(s, 0)
        case Some((k, m)) =>
          SearchLeftmost(k, s);
          SalaryInfo(true, Some(s[m.start..m.end]), Some(Captures(s, m)))
        case None => SalaryInfo(HasSalaryInfo(d), None, None)
  }

  /** When a salary text is returned, it is the leftmost match, in the
      stripped description, of the first pattern in list order that matches
      at all, and of the matches at that start the longest (the one
      `re.search` reports; by `LeftmostLongestUnique` there is only one); the
      amounts are that match's captures, two for the range patterns and one
      for the single-amount patterns. */
  lemma ExtractFirstPattern(d: Description)
    requires ExtractSalaryInfo(d).salaryText.Some?
    ensures d.Text?
    ensures var s := Strip(d.text);
            var r := ExtractSalaryInfo(d);
            exists k: PatternIndex, m: Match ::
              LeftmostLongest(k, s, m) && WellFormed(s, m) &&
              (forall j: PatternIndex, m' :: j < k ==> !Lang(j, s, m')) &&
              r.salaryText == Some(s[m.start..m.end]) &&
              r.amount == Some(Captures(s, m)) &&
              |Captures(s, m)| == GroupCount(k)
  {
    var s := Strip(d.text);
    var km := FirstMatchFrom(s, 0).value;
    var k, m := km.0, km.1;
    SearchLeftmost(k, s);
    forall j: PatternIndex, m' | j < k
      ensures !Lang(j, s, m')
    {
      SearchLeftmost(j, s);
    }
  }

  /** The pattern list is tried in order: the first pattern whose search
      succeeds decides. */
  lemma {:induction false} FirstMatchFromReports(s: string, i: nat, k: PatternIndex, m: Match)
    requires i <= k
    requires forall j: PatternIndex :: i <= j < k ==> Search(j, s).None?
    requires Search(k, s) == Some(m)
    ensures FirstMatchFrom(s, i) == Some((k, m))
    decreases k - i
  {
    if i < k {
      FirstMatchFromReports(s, i + 1, k, m);
    }
  }

  /** A stripped, non-blank text on which pattern k is the first to match
      is reported with that match's text and captures. */
  lemma ExtractReports(t: string, k: PatternIndex, m: Match)
    requires t != "" && Strip(t) == t
    requires forall j: PatternIndex :: j < k ==> Search(j, t).None?
    requires Search(k, t) == Some(m)
    ensures WellFormed(t, m)
    ensures ExtractSalaryInfo(Text(t)) == SalaryInfo(true, Some(t[m.start..m.end]), Some(Captures(t, m)))
  {
    SearchLeftmost(k, t);
    FirstMatchFromReports(t, 0, k, m);
  }

  /** When no salary text is returned for a non-blank description, none of
      the five patterns matches the stripped text anywhere, and the keyword
      test on the original description gives `has_salary`. */
  lemma ExtractFallback(d: Description)
    requires d.Text? && Strip(d.text) != ""
    requires ExtractSalaryInfo(d).salaryText.None?
    ensures forall k: PatternIndex, m :: !Lang(k, Strip(d.text), m)
    ensures ExtractSalaryInfo(d) == SalaryInfo(HasSalaryInfo(d), None, None)
  {
    var s := Strip(d.text);
    forall k: PatternIndex, m
      ensures !Lang(k, s, m)
    {
      SearchLeftmost(k, s);
    }
  }

  // ---------------------------------------------------------------------
  // to_number

  /** Python's `float()` on the decimal forms it can see here: digits with at
      most one point and at least one digit. */
  function ParseDecimal(t: string): (r: Option<real>)
    ensures r.Some? ==> r.value >= 0.0
  {
    var parts := Split(t, '.');
    if |parts| == 1 && parts[0] != "" && AllDigits(parts[0]) then
      Some(DigitsValue(parts[0]) as real)
    else if |parts| == 2 && AllDigits(parts[0]) && AllDigits(parts[1]) && parts[0] + parts[1] != "" then
      Some(DecimalValue(parts[0], parts[1]))
    else None
  }

  /** The value of the decimal `a.b`. */
  function DecimalValue(a: string, b: string): (r: real)
    requires AllDigits(a) && AllDigits(b)
    ensures r >= 0.0
  {
    DigitsValue(a) as real + Tenths(DigitsValue(b) as real, |b|)
  }

  /** x divided by 10, n times. */
  function Tenths(x: real, n: nat): (r: real)
    ensures x >= 0.0 ==> r >= 0.0
  {
    if n == 0 then x else Tenths(x, n - 1) / 10.0
  }

  /** The outcomes of the inner `to_number`: `None` for an empty string, a
      number, or the `ValueError` that `float()` raises. */
  datatype Number = Empty | Value(x: real) | Invalid

  /** The scaling rule of `to_number`: a value below 1000 is taken to be in
      thousands. */
  function Scaled(x: real): real {
    if x < 1000.0 then x * 1000.0 else x
  }

  /** The inner `to_number` of `parse_salary_range`. */
  function ToNumber(s: string): (r: Number)
    ensures r == Empty <==> s == ""
    ensures r.Value? ==> r.x >= 0.0
  {
    if s == "" then Empty
    else
      match ParseDecimal(Strip(RemoveCommas(s)))
      case None => Invalid
      case Some(x) => Value(Scaled(x))
  }

  /** Scaling never lowers a value, and any value at least 1 becomes at
      least 1000. */
  lemma ScaledBounds(x: real)
    requires x >= 0.0
    ensures Scaled(x) >= x
    ensures x >= 1.0 ==> Scaled(x) >= 1000.0
    ensures Scaled(x) == 0.0 <==> x == 0.0
  {
  }

  lemma DigitsFree(a: string)
    requires AllDigits(a)
    ensures Free(a, '.')
  {
  }

  lemma ParseDigits(a: string)
    requires a != "" && AllDigits(a)
    ensures ParseDecimal(a) == Some(DigitsValue(a) as real)
  {
    DigitsFree(a);
    SplitJoin([a], '.');
    assert Split(a, '.') == [a];
  }

  lemma ParseDigitsPoint(a: string, b: string)
    requires a != "" && AllDigits(a) && AllDigits(b)
    ensures ParseDecimal(a + "." + b) == Some(DecimalValue(a, b))
  {
    assert Join(".", [a, b]) == a + "." + b;
    DigitsFree(a);
    DigitsFree(b);
    SplitJoin([a, b], '.');
    var parts := Split(a + "." + b, '.');
    assert parts == [a, b];
    assert parts[0] + parts[1] != "";
  }

  lemma DigitsValue150()
    ensures DigitsValue("150") == 150
  {
    assert "150"[..2] == "15";
    assert "15"[..1] == "1";
    assert "1"[..0] == "";
  }

  lemma DigitsValue1500()
    ensures DigitsValue("1500") == 1500
  {
    assert "1500"[..3] == "150";
    DigitsValue150();
  }

  /** A bare three-digit amount is read as thousands. */
  lemma ToNumberThousands()
    ensures ToNumber("150") == Value(150000.0)
  {
    DigitsValue150();
    DigitsConvert("150");
  }

  /** Thousands separators are dropped before conversion. */
  lemma ToNumberDropsCommas()
    ensures ToNumber("1,500") == Value(1500.0)
  {
    assert RemoveCommas("1,500") == "1500";
    DigitsValue1500();
    CommaDigitsConvert("1,500");
  }

  /** A text that is not a decimal number is the `ValueError` case. */
  lemma ToNumberInvalid()
    ensures ToNumber("abc") == Invalid
  {
    assert RemoveCommas("abc") == "abc";
    StripKeeps("abc");
    DigitsFree("");
    assert Free("abc", '.');
    SplitJoin(["abc"], '.');
    assert Split("abc", '.') == ["abc"];
    assert !AllDigits("abc") by {
      assert "abc"[0] == 'a';
    }
  }

  // ---------------------------------------------------------------------
  // The captures always convert

  lemma {:induction false} GroupsDigits(s: string, k: nat, j: nat)
    requires Groups(s, k, j)
    ensures AllDigits(RemoveCommas(s[k..j]))
    decreases |s| - k
  {
    if k == j {
      assert s[k..j] == "";
    } else {
      GroupsDigits(s, k + 4, j);
      assert s[k..j] == s[k..k + 4] + s[k + 4..j];
      RemoveCommasAppend(s[k..k + 4], s[k + 4..j]);
      assert s[k..k + 4] == [','] + s[k + 1..k + 4];
      RemoveCommasAppend([','], s[k + 1..k + 4]);
      RemoveCommasNone(s[k + 1..k + 4]);
    }
  }

  /** A capture of `\d{1,3}(?:,\d{3})*` loses its commas and leaves a
      non-empty run of digits that starts and ends with a digit. */
  lemma WholeDigits(s: string, i: nat, j: nat)
    requires WholeSpan(s, i, j)
    ensures var t := RemoveCommas(s[i..j]);
            t != "" && AllDigits(t)
  {
    var k: nat :| Whole(s, i, k, j);
    GroupsDigits(s, k, j);
    assert s[i..j] == s[i..k] + s[k..j];
    RemoveCommasAppend(s[i..k], s[k..j]);
    forall q | i <= q < k
      ensures s[q] != ','
    {
      assert IsDigit(s[q]);
    }
    RemoveCommasNone(s[i..k]);
  }

  lemma DigitsConvert(t: string)
    requires t != "" && AllDigits(t)
    ensures ToNumber(t) == Value(Scaled(DigitsValue(t) as real))
  {
    RemoveCommasNone(t);
    StripKeeps(t);
    ParseDigits(t);
  }

  lemma CommaDigitsConvert(c: string)
    requires c != ""
    requires var t := RemoveCommas(c); t != "" && AllDigits(t)
    ensures ToNumber(c) == Value(Scaled(DigitsValue(RemoveCommas(c)) as real))
  {
    var t := RemoveCommas(c);
    StripKeeps(t);
    ParseDigits(t);
  }

  /** An amount with cents, `w.dd` once its commas are gone, converts. */
  lemma CentsConvert(s: string, i: nat, m: nat, j: nat)
    requires i <= m && j == m + 3 && CentsAt(s, m)
    requires var w := RemoveCommas(s[i..m]); w != "" && AllDigits(w)
    ensures ToNumber(s[i..j]).Value?
  {
    var b := s[m + 1..j];
    assert s[i..j] == s[i..m] + ("." + b);
    RemoveCommasAppend(s[i..m], "." + b);
    RemoveCommasNone("." + b);
    PointConvert(s[i..j], RemoveCommas(s[i..m]), b);
  }

  lemma PointConvert(c: string, w: string, b: string)
    requires w != "" && AllDigits(w) && b != "" && AllDigits(b)
    requires RemoveCommas(c) == w + "." + b
    ensures ToNumber(c) == Value(Scaled(DecimalValue(w, b)))
  {
    var t := w + "." + b;
    assert t[0] == w[0] && t[|t| - 1] == b[|b| - 1];
    StripKeeps(t);
    ParseDigitsPoint(w, b);
  }

  /** Every amount capture of a salary match converts to a number: the
      `ValueError` branch of `parse_salary_range` is never taken. */
  lemma AmountConverts(s: string, i: nat, j: nat)
    requires AmountSpan(s, i, j)
    ensures i <= j <= |s| && ToNumber(s[i..j]).Value?
  {
    var m: nat :| WholeSpan(s, i, m) && Cents(s, m, j);
    WholeDigits(s, i, m);
    if m == j {
      CommaDigitsConvert(s[i..j]);
    } else {
      CentsConvert(s, i, m, j);
    }
  }

  lemma DigitsSpanConverts(s: string, i: nat, j: nat)
    requires Digits(s, i, j)
    ensures ToNumber(s[i..j]).Value?
  {
    DigitsConvert(s[i..j]);
  }

  lemma WholeConverts(s: string, i: nat, j: nat)
    requires WholeSpan(s, i, j)
    ensures i <= j <= |s| && ToNumber(s[i..j]).Value?
  {
    WholeDigits(s, i, j);
    CommaDigitsConvert(s[i..j]);
  }

  /** The captures of a two-group match convert when both groups do. */
  lemma TwoGroupsConvert(s: string, m: Match)
    requires WellFormed(s, m) && |m.groups| == 2
    requires ToNumber(s[m.groups[0].lo..m.groups[0].hi]).Value?
    requires ToNumber(s[m.groups[1].lo..m.groups[1].hi]).Value?
    ensures forall c :: c in Captures(s, m) ==> ToNumber(c).Value?
  {
    var c0, c1 := s[m.groups[0].lo..m.groups[0].hi], s[m.groups[1].lo..m.groups[1].hi];
    assert Captures(s, m) == [c0, c1];
    PairConverts(c0, c1);
  }

  lemma PairConverts(c0: string, c1: string)
    requires ToNumber(c0).Value? && ToNumber(c1).Value?
    ensures forall c :: c in [c0, c1] ==> ToNumber(c).Value?
  {
  }

  /** The captures of a one-group match convert when the group does. */
  lemma OneGroupConverts(s: string, m: Match)
    requires WellFormed(s, m) && |m.groups| == 1
    requires ToNumber(s[m.groups[0].lo..m.groups[0].hi]).Value?
    ensures forall c :: c in Captures(s, m) ==> ToNumber(c).Value?
  {
    assert Captures(s, m) == [s[m.groups[0].lo..m.groups[0].hi]];
  }

  /** Every capture of every salary pattern converts to a number. */
  lemma CapturesConvert(k: PatternIndex, s: string, m: Match)
    requires Lang(k, s, m) && WellFormed(s, m)
    ensures forall c :: c in Captures(s, m) ==> ToNumber(c).Value?
  {
    match k
    case 0 =>
      AmountConverts(s, m.groups[0].lo, m.groups[0].hi);
      AmountConverts(s, m.groups[1].lo, m.groups[1].hi);
      TwoGroupsConvert(s, m);
    case 1 =>
      DigitsSpanConverts(s, m.groups[0].lo, m.groups[0].hi);
      DigitsSpanConverts(s, m.groups[1].lo, m.groups[1].hi);
      TwoGroupsConvert(s, m);
    case 2 =>
      DigitsSpanConverts(s, m.groups[0].lo, m.groups[0].hi);
      DigitsSpanConverts(s, m.groups[1].lo, m.groups[1].hi);
      TwoGroupsConvert(s, m);
    case 3 =>
      WholeConverts(s, m.groups[0].lo, m.groups[0].hi);
      OneGroupConverts(s, m);
    case 4 =>
      DigitsSpanConverts(s, m.groups[0].lo, m.groups[0].hi);
      OneGroupConverts(s, m);
  }

  /** Every amount `extract_salary_info` returns converts to a number, and
      there are one or two of them. */
  lemma ExtractedAmountsConvert(d: Description)
    requires ExtractSalaryInfo(d).amount.Some?
    ensures var a := ExtractSalaryInfo(d).amount.value;
            (|a| == 1 || |a| == 2) && forall c :: c in a ==> ToNumber(c).Value?
  {
    ExtractFirstPattern(d);
    var s := Strip(d.text);
    var k: PatternIndex, m: Match :|
      LeftmostLongest(k, s, m) && WellFormed(s, m) &&
      ExtractSalaryInfo(d).amount == Some(Captures(s, m)) &&
      |Captures(s, m)| == GroupCount(k);
    CapturesConvert(k, s, m);
  }

  // ---------------------------------------------------------------------
  // parse_salary_range

  /** Python truthiness of a `to_number` result. */
  predicate Truthy(n: Number) {
    n.Value? && n.x != 0.0
  }

  /** `parse_salary_range`: the converted first two amounts (or the single
      amount twice), when there is a salary match and every amount used is
      non-zero. */
  function ParseSalaryRange(d: Description): (r: Option<(real, real)>)
    ensures r.Some? ==> r.value.0 > 0.0 && r.value.1 > 0.0
  {
    RangeOf(ExtractSalaryInfo(d))
  }

  /** The body of `parse_salary_range` after the extraction. */
  function RangeOf(info: SalaryInfo): (r: Option<(real, real)>)
    ensures r.Some? ==> r.value.0 > 0.0 && r.value.1 > 0.0
  {
    if !info.hasSalary || info.amount.None? || info.amount.value == [] then None
    else Pick(Numbers(info.amount.value))
  }

  /** `to_number` applied to every amount. */
  function Numbers(a: seq<string>): (ns: seq<Number>)
    ensures |ns| == |a| && forall i :: 0 <= i < |a| ==> ns[i] == ToNumber(a[i])
  {
    seq(|a|, i requires 0 <= i < |a| => ToNumber(a[i]))
  }

  /** The range built from the converted amounts: a `ValueError` (`Invalid`)
      or a falsy amount gives no range. */
  function Pick(ns: seq<Number>): (r: Option<(real, real)>)
    requires |ns| > 0
    ensures r.Some? ==> var last := if |ns| >= 2 then 1 else 0;
                        ns[0].Value? && ns[last].Value? && ns[0].x != 0.0 && ns[last].x != 0.0 &&
                        r.value == (ns[0].x, ns[last].x)
  {
    if |ns| >= 2 then
      if ns[0].Invalid? || ns[1].Invalid? then None
      else if Truthy(ns[0]) && Truthy(ns[1]) then Some((ns[0].x, ns[1].x))
      else None
    else if Truthy(ns[0]) then Some((ns[0].x, ns[0].x))
    else None
  }

  predicate AllValues(ns: seq<Number>) {
    forall i :: 0 <= i < |ns| ==> ns[i].Value?
  }

  /** Of one or two numbers, the range is absent exactly when one of them
      is zero, and otherwise keeps them in order. */
  lemma PickCases(ns: seq<Number>)
    requires 1 <= |ns| <= 2 && AllValues(ns)
    ensures Pick(ns).None? <==> exists i :: 0 <= i < |ns| && ns[i].x == 0.0
    ensures Pick(ns).Some? ==> Pick(ns).value == (ns[0].x, ns[|ns| - 1].x)
  {
    assert ns[0].Value?;
    if |ns| == 2 {
      assert ns[1].Value?;
    }
  }

  /** The amounts of an extraction: one or two, all convertible, and only
      where a salary was found. */
  predicate Convertible(info: SalaryInfo) {
    info.amount.Some? ==>
      info.hasSalary && (|info.amount.value| == 1 || |info.amount.value| == 2) &&
      AllValues(Numbers(info.amount.value))
  }

  lemma ExtractionConvertible(d: Description)
    ensures Convertible(ExtractSalaryInfo(d))
  {
    var info := ExtractSalaryInfo(d);
    if info.amount.Some? {
      ExtractedAmountsConvert(d);
      var a := info.amount.value;
      forall i | 0 <= i < |a|
        ensures Numbers(a)[i].Value?
      {
        assert a[i] in a;
      }
    }
  }

  /** The range is absent exactly when there is no salary match or one of
      the amounts converts to zero. */
  lemma ParseSalaryRangeNone(d: Description)
    ensures var info := ExtractSalaryInfo(d);
            ParseSalaryRange(d).None? <==>
              info.amount.None? ||
              exists i :: 0 <= i < |info.amount.value| && ToNumber(info.amount.value[i]) == Value(0.0)
  {
    var info := ExtractSalaryInfo(d);
    ExtractionConvertible(d);
    if info.amount.Some? {
      var ns := Numbers(info.amount.value);
      PickCases(ns);
      assert ParseSalaryRange(d) == Pick(ns);
    }
  }

  /** A range is the converted amounts in the order they were captured: the
      first capture gives the minimum and the last the maximum, even when
      the first is the larger; nothing sorts them. */
  lemma ParseSalaryRangeOrder(d: Description)
    ensures var info := ExtractSalaryInfo(d);
            ParseSalaryRange(d).Some? ==>
              info.amount.Some? && |info.amount.value| > 0 &&
              var a := info.amount.value;
              ToNumber(a[0]) == Value(ParseSalaryRange(d).value.0) &&
              ToNumber(a[|a| - 1]) == Value(ParseSalaryRange(d).value.1)
  {
    var info := ExtractSalaryInfo(d);
    ExtractionConvertible(d);
    RangeOfOrder(info);
  }

  lemma RangeOfOrder(info: SalaryInfo)
    requires Convertible(info)
    ensures RangeOf(info).Some? ==>
              info.amount.Some? && |info.amount.value| > 0 &&
              var a := info.amount.value;
              RangeOf(info).value == (ToNumber(a[0]).x, ToNumber(a[|a| - 1]).x)
  {
    if RangeOf(info).Some? {
      var a := info.amount.value;
      var ns := Numbers(a);
      PickCases(ns);
      assert ns[0] == ToNumber(a[0]) && ns[|ns| - 1] == ToNumber(a[|a| - 1]);
    }
  }

  /** A description with only keywords, or with nothing, gives no range. */
  lemma ParseSalaryRangeNeedsMatch(d: Description)
    requires ExtractSalaryInfo(d).salaryText.None?
    ensures ParseSalaryRange(d).None?
  {
  }

  // ---------------------------------------------------------------------
  // meets_minimum_salary

  /** `meets_minimum_salary` with a check type of "min", "max", "avg" or
      "any"; any other check type fails. */
  function MeetsMinimumSalary(d: Description, threshold: real, checkType: string): (r: bool)
    ensures r ==> ParseSalaryRange(d).Some?
  {
    match ParseSalaryRange(d)
    case None => false
    case Some((lo, hi)) =>
      if checkType == "min" then lo >= threshold
      else if checkType == "max" then hi >= threshold
      else if checkType == "avg" then (lo + hi) / 2.0 >= threshold
      else if checkType == "any" then lo >= threshold || hi >= threshold
      else false
  }

  /** Two non-zero amounts give the range between them. */
  lemma RangeOfPair(info: SalaryInfo, a: string, b: string, x: real, y: real)
    requires info.hasSalary && info.amount == Some([a, b])
    requires ToNumber(a) == Value(x) && ToNumber(b) == Value(y) && x != 0.0 && y != 0.0
    ensures RangeOf(info) == Some((x, y))
  {
    assert Numbers([a, b]) == [Value(x), Value(y)];
  }

  /** A single non-zero amount gives the range from it to itself. */
  lemma RangeOfSingle(info: SalaryInfo, a: string, x: real)
    requires info.hasSalary && info.amount == Some([a])
    requires ToNumber(a) == Value(x) && x != 0.0
    ensures RangeOf(info) == Some((x, x))
  {
    assert Numbers([a]) == [Value(x)];
  }

  /** "any" holds exactly when "min" or "max" holds. */
  lemma MeetsAnyIsMinOrMax(d: Description, threshold: real)
    ensures MeetsMinimumSalary(d, threshold, "any") <==>
              MeetsMinimumSalary(d, threshold, "min") || MeetsMinimumSalary(d, threshold, "max")
  {
  }

  /** When both ends meet the threshold, so does their average; and when the
      average does, at least one end does. */
  lemma MeetsAvgBetween(d: Description, threshold: real)
    ensures MeetsMinimumSalary(d, threshold, "min") && MeetsMinimumSalary(d, threshold, "max") ==>
              MeetsMinimumSalary(d, threshold, "avg")
    ensures MeetsMinimumSalary(d, threshold, "avg") ==> MeetsMinimumSalary(d, threshold, "any")
  {
  }

  /** An unknown check type never passes. */
  lemma MeetsUnknownMode(d: Description, threshold: real, checkType: string)
    requires checkType != "min" && checkType != "max" && checkType != "avg" && checkType != "any"
    ensures !MeetsMinimumSalary(d, threshold, checkType)
  {
  }

  /** A lower threshold never turns a pass into a failure. */
  lemma MeetsMonotone(d: Description, t1: real, t2: real, checkType: string)
    requires t1 <= t2
    ensures MeetsMinimumSalary(d, t2, checkType) ==> MeetsMinimumSalary(d, t1, checkType)
  {
  }

  /** "min", "max" and "avg" each compare their end of the range, or the
      average, with `>=`. */
  lemma MeetsModes(d: Description, threshold: real)
    ensures MeetsMinimumSalary(d, threshold, "min") <==>
              ParseSalaryRange(d).Some? && ParseSalaryRange(d).value.0 >= threshold
    ensures MeetsMinimumSalary(d, threshold, "max") <==>
              ParseSalaryRange(d).Some? && ParseSalaryRange(d).value.1 >= threshold
    ensures MeetsMinimumSalary(d, threshold, "avg") <==>
              ParseSalaryRange(d).Some? &&
              (ParseSalaryRange(d).value.0 + ParseSalaryRange(d).value.1) / 2.0 >= threshold
  {
    assert "max" != "min" && "avg" != "min" && "avg" != "max" by {
      assert "max"[1] != "min"[1] && "avg"[0] != "min"[0] && "avg"[0] != "max"[0];
    }
  }

  /** The comparisons are inclusive: a range end, or the average, equal to
      the threshold passes. */
  lemma MeetsInclusive(d: Description)
    requires ParseSalaryRange(d).Some?
    ensures var (lo, hi) := ParseSalaryRange(d).value;
            MeetsMinimumSalary(d, lo, "min") && MeetsMinimumSalary(d, hi, "max") &&
            MeetsMinimumSalary(d, (lo + hi) / 2.0, "avg") && MeetsMinimumSalary(d, lo, "any")
  {
    var (lo, hi) := ParseSalaryRange(d).value;
    MeetsModes(d, lo);
    MeetsModes(d, hi);
    MeetsModes(d, (lo + hi) / 2.0);
    MeetsAnyAmounts(d, lo);
  }

  /** "any" holds exactly when some amount, converted, reaches the
      threshold, provided the range exists. */
  lemma MeetsAnyAmounts(d: Description, threshold: real)
    ensures MeetsMinimumSalary(d, threshold, "any") <==>
              ParseSalaryRange(d).Some? &&
              (ParseSalaryRange(d).value.0 >= threshold || ParseSalaryRange(d).value.1 >= threshold)
  {
    assert "any" != "min" && "any" != "max" && "any" != "avg" by {
      assert "any"[0] != "min"[0] && "any"[1] != "max"[1] && "any"[1] != "avg"[1];
    }
  }

  // ---------------------------------------------------------------------
  // Worked examples

  /** The value of a digit string grows by one digit at its end. */
  lemma DigitsValueSnoc(t: string, c: char)
    requires AllDigits(t) && IsDigit(c)
    ensures AllDigits(t + [c]) && DigitsValue(t + [c]) == 10 * DigitsValue(t) + DigitValue(c)
  {
    assert (t + [c])[..|t|] == t;
  }

  lemma DigitsValue100000()
    ensures DigitsValue("100000") == 100000
  {
    DigitsValueSnoc("1", '0');
    assert "1" + ['0'] == "10";
    DigitsValueSnoc("10", '0');
    assert "10" + ['0'] == "100";
    DigitsValueSnoc("100", '0');
    assert "100" + ['0'] == "1000";
    DigitsValueSnoc("1000", '0');
    assert "1000" + ['0'] == "10000";
    DigitsValueSnoc("10000", '0');
    assert "10000" + ['0'] == "100000";
  }

  lemma DigitsValue150000()
    ensures DigitsValue("150000") == 150000
  {
    DigitsValue1500();
    DigitsValueSnoc("1500", '0');
    assert "1500" + ['0'] == "15000";
    DigitsValueSnoc("15000", '0');
    assert "15000" + ['0'] == "150000";
  }

  /** Pattern 0 reads a dollar range with thousands separators whole. */
  lemma SearchDollarRange()
    ensures Search(0, "$100,000 - $150,000") == Some(Match(0, 19, [Span(1, 8), Span(12, 19)]))
  {
    var s := "$100,000 - $150,000";
    var m := Match(0, 19, [Span(1, 8), Span(12, 19)]);
    assert Whole(s, 1, 4, 8);
    assert Whole(s, 12, 15, 19);
    assert Cents(s, 8, 8) && Cents(s, 19, 19);
    assert PlainSep(s, 8, 9, 10, 11);
    assert OptDollar(s, 11, 12) && Spaces(s, 12, 12);
    assert Lead(s, 0, 1);
    assert Lang0(s, m);
    SearchReportsToEnd(0, s, m);
  }

  lemma ExtractDollarRange(s: string)
    requires s == "$100,000 - $150,000"
    ensures ExtractSalaryInfo(Text(s)) == SalaryInfo(true, Some(s), Some(["100,000", "150,000"]))
  {
    var m := Match(0, 19, [Span(1, 8), Span(12, 19)]);
    StripKeeps(s);
    SearchDollarRange();
    ExtractReports(s, 0, m);
    DollarRangeCaptures(s);
    assert s[0..19] == s;
  }

  lemma DollarRangeCaptures(s: string)
    requires s == "$100,000 - $150,000"
    ensures WellFormed(s, Match(0, 19, [Span(1, 8), Span(12, 19)]))
    ensures Captures(s, Match(0, 19, [Span(1, 8), Span(12, 19)])) == ["100,000", "150,000"]
  {
    var m := Match(0, 19, [Span(1, 8), Span(12, 19)]);
    assert s[1..8] == "100,000";
    assert s[12..19] == "150,000";
    assert Captures(s, m) == [s[1..8], s[12..19]];
  }

  /** One thousands separator between two comma-free parts is dropped. */
  lemma CommaDropped(w: string, g: string)
    requires forall i :: 0 <= i < |w| ==> w[i] != ','
    requires forall i :: 0 <= i < |g| ==> g[i] != ','
    ensures RemoveCommas(w + [','] + g) == w + g
  {
    RemoveCommasAppend(w + [','], g);
    RemoveCommasAppend(w, [',']);
    RemoveCommasNone(w);
    RemoveCommasNone(g);
    assert RemoveCommas([',']) == [] by {
      assert [','][1..] == [];
    }
    assert w + [] == w;
  }

  lemma ToNumber100000(c: string)
    requires c == "100,000"
    ensures ToNumber(c) == Value(100000.0)
  {
    CommaDropped("100", "000");
    assert c == "100" + [','] + "000";
    assert "100" + "000" == "100000";
    DigitsValue100000();
    CommaDigitsConvert(c);
  }

  lemma ToNumber150000(c: string)
    requires c == "150,000"
    ensures ToNumber(c) == Value(150000.0)
  {
    CommaDropped("150", "000");
    assert c == "150" + [','] + "000";
    assert "150" + "000" == "150000";
    DigitsValue150000();
    CommaDigitsConvert(c);
  }

  /** A dollar range with thousands separators is read as written. */
  lemma ParseDollarRange()
    ensures ParseSalaryRange(Text("$100,000 - $150,000")) == Some((100000.0, 150000.0))
  {
    var s := "$100,000 - $150,000";
    ExtractDollarRange(s);
    ToNumber100000("100,000");
    ToNumber150000("150,000");
    RangeOfPair(ExtractSalaryInfo(Text(s)), "100,000", "150,000", 100000.0, 150000.0);
  }

  /** A range entirely below the floor fails the "any" test. */
  lemma DollarRangeBelowFloor()
    ensures !MeetsMinimumSalary(Text("$100,000 - $150,000"), 160000.0, "any")
  {
    ParseDollarRange();
  }

  lemma DigitsValue100()
    ensures DigitsValue("100") == 100
  {
    assert "100"[..2] == "10";
    assert "10"[..1] == "1";
    assert "1"[..0] == "";
  }

  lemma DigitsValue120()
    ensures DigitsValue("120") == 120
  {
    assert "120"[..2] == "12";
    assert "12"[..1] == "1";
    assert "1"[..0] == "";
  }

  /** Pattern 0 wants an amount right before the separator, which a `k`
      suffix prevents. */
  lemma KRangeNotPattern0(s: string)
    requires s == "$100k - $150k"
    ensures Search(0, s) == None
  {
    forall q | 0 <= q <= |s|
      ensures MatchAt(0, s, q).None?
    {
      if q == 0 || q == 8 {
        KAmountNotPattern0(s, q);
      } else {
        assert !DollarAt(s, q);
      }
    }
    SearchFails(0, s);
  }

  /** An amount followed by `k` is not followed by a separator. */
  lemma KAmountNotPattern0(s: string, q: nat)
    requires s == "$100k - $150k" && (q == 0 || q == 8)
    ensures At0(s, q).None?
  {
    assert LeadEnd(s, q) == Some(q + 1);
    assert AmountEnd(s, q + 1) == Some(q + 4);
    assert SpaceEnd(s, q + 4) == q + 4 && SepEnd(s, q + 4) == q + 4;
  }

  /** Pattern 1 reads a range of thousands written with `k`. */
  lemma SearchKRange(s: string)
    requires s == "$100k - $150k"
    ensures Search(1, s) == Some(Match(0, 13, [Span(1, 4), Span(9, 12)]))
  {
    var m := Match(0, 13, [Span(1, 4), Span(9, 12)]);
    assert Lead(s, 0, 1) && Digits(s, 1, 4) && KAt(s, 4);
    assert PlainSep(s, 5, 6, 7, 8) && OptDollar(s, 8, 9) && Spaces(s, 9, 9);
    assert Lead(s, 8, 9) && Digits(s, 9, 12) && KAt(s, 12);
    assert Lang1(s, m);
    SearchReportsToEnd(1, s, m);
  }

  lemma ExtractKRange(s: string)
    requires s == "$100k - $150k"
    ensures ExtractSalaryInfo(Text(s)) == SalaryInfo(true, Some(s), Some(["100", "150"]))
  {
    var m := Match(0, 13, [Span(1, 4), Span(9, 12)]);
    StripKeeps(s);
    KRangeNotPattern0(s);
    SearchKRange(s);
    ExtractReports(s, 1, m);
    KRangeCaptures(s);
    assert s[0..13] == s;
  }

  lemma KRangeCaptures(s: string)
    requires s == "$100k - $150k"
    ensures WellFormed(s, Match(0, 13, [Span(1, 4), Span(9, 12)]))
    ensures Captures(s, Match(0, 13, [Span(1, 4), Span(9, 12)])) == ["100", "150"]
  {
    var m := Match(0, 13, [Span(1, 4), Span(9, 12)]);
    assert s[1..4] == "100";
    assert s[9..12] == "150";
    assert Captures(s, m) == [s[1..4], s[9..12]];
  }

  lemma ToNumber100(c: string)
    requires c == "100"
    ensures ToNumber(c) == Value(100000.0)
  {
    DigitsValue100();
    DigitsConvert(c);
  }

  lemma ToNumber150(c: string)
    requires c == "150"
    ensures ToNumber(c) == Value(150000.0)
  {
    DigitsValue150();
    DigitsConvert(c);
  }

  /** A range of thousands written with `k` is scaled: pattern 0 does not
      match it and pattern 1 does. */
  lemma ParseKRange()
    ensures ParseSalaryRange(Text("$100k - $150k")) == Some((100000.0, 150000.0))
  {
    var s := "$100k - $150k";
    ExtractKRange(s);
    ToNumber100("100");
    ToNumber150("150");
    RangeOfPair(ExtractSalaryInfo(Text(s)), "100", "150", 100000.0, 150000.0);
  }

  /** Neither range pattern with a `$` matches "Up to $120k": after its one
      amount no separator follows. */
  lemma UpToNotDollarRanges(s: string)
    requires s == "Up to $120k"
    ensures Search(0, s) == None && Search(1, s) == None
  {
    forall q | 0 <= q <= |s|
      ensures MatchAt(0, s, q).None? && MatchAt(1, s, q).None?
    {
      if q == 6 {
        assert AmountEnd(s, 7) == Some(10);
        assert SpaceEnd(s, 10) == 10 && SepEnd(s, 10) == 10;
        assert DigitsKEnd(s, 7) == Some(10);
        assert SpaceEnd(s, 11) == 11 && SepEnd(s, 11) == 11;
      } else {
        assert !DollarAt(s, q);
      }
    }
    SearchFails(0, s);
    SearchFails(1, s);
  }

  /** The bare range pattern does not match "Up to $120k" either. */
  lemma UpToNotBareRange(s: string)
    requires s == "Up to $120k"
    ensures Search(2, s) == None
  {
    forall q | 0 <= q <= |s|
      ensures MatchAt(2, s, q).None?
    {
      if 7 <= q <= 9 {
        assert DigitsEnd(s, q, 3) == 10;
        assert SpaceEnd(s, 11) == 11 && SepEnd(s, 11) == 11;
      } else {
        assert !DigitAt(s, q);
      }
    }
    SearchFails(2, s);
  }

  /** Pattern 3 finds the dollar amount after the words. */
  lemma SearchUpTo(s: string)
    requires s == "Up to $120k"
    ensures Search(3, s) == Some(Match(6, 10, [Span(7, 10)]))
  {
    forall q | 0 <= q < 6
      ensures MatchAt(3, s, q).None?
    {
      assert !DollarAt(s, q);
    }
    assert LeadEnd(s, 6) == Some(7);
    assert WholeEnd(s, 7) == Some(10);
    SearchFinds(3, s, 6);
  }

  lemma UpToCaptures(s: string)
    requires s == "Up to $120k"
    ensures WellFormed(s, Match(6, 10, [Span(7, 10)]))
    ensures s[6..10] == "$120"
    ensures Captures(s, Match(6, 10, [Span(7, 10)])) == ["120"]
  {
    var m := Match(6, 10, [Span(7, 10)]);
    assert s[7..10] == "120";
    assert Captures(s, m) == [s[7..10]];
  }

  lemma ExtractUpTo(s: string)
    requires s == "Up to $120k"
    ensures ExtractSalaryInfo(Text(s)) == SalaryInfo(true, Some("$120"), Some(["120"]))
  {
    StripKeeps(s);
    UpToNotDollarRanges(s);
    UpToNotBareRange(s);
    SearchUpTo(s);
    ExtractReports(s, 3, Match(6, 10, [Span(7, 10)]));
    UpToCaptures(s);
  }

  lemma ToNumber120(c: string)
    requires c == "120"
    ensures ToNumber(c) == Value(120000.0)
  {
    DigitsValue120();
    DigitsConvert(c);
  }

  /** A single amount after other words gives the range from it to itself:
      the three range patterns fail and pattern 3 matches. */
  lemma ParseUpTo()
    ensures ParseSalaryRange(Text("Up to $120k")) == Some((120000.0, 120000.0))
  {
    var s := "Up to $120k";
    ExtractUpTo(s);
    ToNumber120("120");
    RangeOfSingle(ExtractSalaryInfo(Text(s)), "120", 120000.0);
  }
}
