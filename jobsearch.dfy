/** The enrichment loop of the job search run: the ids already on the sheet
    are collected, then each scraped posting is filtered on salary and on
    its id, scored by the language models, and appended to the sheet.

    The scraper, the models, the PDF writer and the Sheets service are not
    executed: what each of them answers for a posting is an `Oracle` value
    given with the posting. */
module JobSearch {
  import opened Wrappers
  import opened Text
  import opened Cells
  import opened LoadUtils
  import opened GoogleSheets

  // ---------------------------------------------------------------------
  // Data
  // ---------------------------------------------------------------------

  /** One scraped posting, its twelve columns in the order the scraper's data
      handler lists them. */
  datatype Posting = Posting(
    jobId: string, location: Cell, title: Cell, company: Cell, place: Cell,
    date: Cell, dateText: Cell, link: Cell, applyLink: Cell, insights: Cell,
    description: Cell, skills: Cell)

  /** The row of the data frame for a posting. */
  function Columns(p: Posting): (r: seq<Cell>)
    ensures |r| == 12 && r[0] == Str(p.jobId) && r[8] == p.applyLink && r[10] == p.description
  {
    [Str(p.jobId), p.location, p.title, p.company, p.place, p.date, p.dateText,
     p.link, p.applyLink, p.insights, p.description, p.skills]
  }

  /** One entry of a model's `improvement_recommendations`. */
  datatype Recommendation = Recommendation(
    priority: Cell, category: Cell, recommendation: Cell, exampleBefore: Cell, exampleAfter: Cell)

  /** A model's assessment of the resume against a posting. */
  datatype Assessment = Assessment(
    overallScore: int, recommendations: seq<Recommendation>, atsScore: Cell, atsIssues: Cell)

  /** How `save_to_pdf` ends: True, False, or an exception raised before its
      own handler (the PDF directory is read from the environment outside
      it). */
  datatype PdfOutcome = PdfSaved | PdfFailed | PdfRaised

  /** What the outside world answers for one posting. `None` for a model
      stands for an answer the loop cannot read (no answer, or a key
      missing), which raises. */
  datatype Oracle = Oracle(
    gemini: Option<Assessment>, customization: Option<string>, pdf: PdfOutcome,
    openAi: Option<Assessment>, claude: Option<Assessment>, append: AppendOutcome)

  /** The switches of a run. `primaryCanCustomize` says whether the primary
      model's agent has a resume customization method; the shipped agent
      has none. */
  datatype Config = Config(runOpenAi: bool, runClaude: bool, primaryCanCustomize: bool)

  const Shipped: Config := Config(false, false, false)

  /** The salary floor passed to the minimum salary check. */
  const SalaryFloor: real := 160000.0

  /** The score from which a customized resume is asked for. */
  const CustomizationScore: int := 80

  /** The key column handed to `add_record`: the apply link. */
  const KeyColumn: int := 8

  datatype Outcome = BelowSalaryFloor | AlreadyPresent | Added | NotAdded | Aborted

  /** What happened to one posting: how it ended, whether the primary model
      scored it, whether a customized resume and a PDF were asked for, and
      the record handed to `add_record` (empty when none was). */
  datatype Step = Step(
    outcome: Outcome, scored: bool, customizationRequested: bool, pdfRequested: bool,
    record: seq<Cell>)

  // ---------------------------------------------------------------------
  // Seeding
  // ---------------------------------------------------------------------

  /** The ids already on the sheet: the first cell of every non-empty data
      row, the first row being a header; a sheet of one row has no data. */
  function SeedIds(rows: seq<seq<string>>): (ids: set<string>)
  {
    var dataRows := if |rows| > 1 then rows[1..] else [];
    set row | row in dataRows && |row| > 0 :: row[0]
  }

  lemma SeedIdsMeaning(rows: seq<seq<string>>, id: string)
    ensures id in SeedIds(rows) <==> exists k :: 1 <= k < |rows| && |rows[k]| > 0 && rows[k][0] == id
  {
    if exists k :: 1 <= k < |rows| && |rows[k]| > 0 && rows[k][0] == id {
      var k :| 1 <= k < |rows| && |rows[k]| > 0 && rows[k][0] == id;
      assert rows[1..][k - 1] == rows[k];
    }
    if id in SeedIds(rows) {
      var row :| row in rows[1..] && |row| > 0 && row[0] == id;
      var j :| 0 <= j < |rows[1..]| && rows[1..][j] == row;
      assert rows[j + 1] == row;
    }
  }

  /** A sheet of one row, header or not, seeds no id. */
  lemma SeedIdsSingleRow(row: seq<string>)
    ensures SeedIds([row]) == {}
  {
  }

  // ---------------------------------------------------------------------
  // Salary gate
  // ---------------------------------------------------------------------

  /** The description as a string: a non-string becomes its `str()` text
      when truthy and the empty string otherwise, so NaN reads "nan". */
  function DescriptionText(c: Cell): (r: string)
    ensures c.Str? ==> r == c.s
    ensures !c.Str? && !Cells.Truthy(c) ==> r == ""
    ensures c.NaN? ==> r == "nan"
  {
    if c.Str? then c.s else if Cells.Truthy(c) then ToText(c) else ""
  }

  /** `Salary_in_Threshold`: true without salary keywords, true with keywords
      but no amount, and otherwise the minimum salary check in "any" mode. */
  predicate PassesSalaryGate(description: string) {
    var info := ExtractSalaryInfo(Text(description));
    if info.hasSalary then
      if info.salaryText.None? then true
      else MeetsMinimumSalary(Text(description), SalaryFloor, "any")
    else true
  }

  /** A posting is dropped exactly when an amount was matched and neither end
      of its range reaches the floor (a range that does not parse counts as
      below). */
  lemma SalaryGateMeaning(description: string)
    ensures var d := Text(description);
            !PassesSalaryGate(description) <==>
              ExtractSalaryInfo(d).salaryText.Some? &&
              (ParseSalaryRange(d).None? ||
               (ParseSalaryRange(d).value.0 < SalaryFloor && ParseSalaryRange(d).value.1 < SalaryFloor))
  {
    MeetsAnyAmounts(Text(description), SalaryFloor);
  }

  /** A text with no salary keyword and no amount always passes. */
  lemma SalaryGateNoSalary(description: string)
    requires !ExtractSalaryInfo(Text(description)).hasSalary
    ensures PassesSalaryGate(description)
  {
  }

  // ---------------------------------------------------------------------
  // Digests and the record
  // ---------------------------------------------------------------------

  /** The bullet of the digests as the Python literal holds it: the three
      characters that the UTF-8 bytes of U+2022 give when read as
      Windows-1252. */
  const Bullet: string := "\U{E2}\U{20AC}\U{A2}"

  function GeminiLine(r: Recommendation): string {
    Bullet + " [" + ToText(r.priority) + "] " + ToText(r.category) + ": " + ToText(r.recommendation) +
    ", before: " + ToText(r.exampleBefore) + " , after: " + ToText(r.exampleAfter) + " "
  }

  /** The line the secondary models' digests use: no examples. */
  function ShortLine(r: Recommendation): string {
    Bullet + " [" + ToText(r.priority) + "] " + ToText(r.category) + ": " + ToText(r.recommendation)
  }

  function GeminiLines(a: Assessment): (lines: seq<string>)
    ensures |lines| == |a.recommendations|
  {
    seq(|a.recommendations|, k requires 0 <= k < |a.recommendations| => GeminiLine(a.recommendations[k]))
  }

  function ShortLines(a: Assessment): (lines: seq<string>)
    ensures |lines| == |a.recommendations|
  {
    seq(|a.recommendations|, k requires 0 <= k < |a.recommendations| => ShortLine(a.recommendations[k]))
  }

  /** The digests: one line per recommendation, joined by newlines. */
  function GeminiDigest(a: Assessment): string {
    Join("\n", GeminiLines(a))
  }

  function ShortDigest(a: Assessment): string {
    Join("\n", ShortLines(a))
  }

  predicate OneLine(c: Cell) {
    Free(ToText(c), '\n')
  }

  predicate OneLineFields(a: Assessment) {
    forall k :: 0 <= k < |a.recommendations| ==>
      var r := a.recommendations[k];
      OneLine(r.priority) && OneLine(r.category) && OneLine(r.recommendation) &&
      OneLine(r.exampleBefore) && OneLine(r.exampleAfter)
  }

  lemma FreeConcat(a: string, b: string)
    requires Free(a, '\n') && Free(b, '\n')
    ensures Free(a + b, '\n')
  {
    forall i | 0 <= i < |a + b|
      ensures (a + b)[i] != '\n'
    {
      if i >= |a| {
        assert (a + b)[i] == b[i - |a|];
      }
    }
  }

  lemma GeminiLineFree(r: Recommendation)
    requires OneLine(r.priority) && OneLine(r.category) && OneLine(r.recommendation)
    requires OneLine(r.exampleBefore) && OneLine(r.exampleAfter)
    ensures Free(GeminiLine(r), '\n')
    ensures Free(ShortLine(r), '\n')
  {
    var s0 := Bullet + " [";
    assert Free(s0, '\n');
    FreeConcat(s0, ToText(r.priority));
    var s1 := s0 + ToText(r.priority);
    FreeConcat(s1, "] ");
    var s2 := s1 + "] ";
    FreeConcat(s2, ToText(r.category));
    var s3 := s2 + ToText(r.category);
    FreeConcat(s3, ": ");
    var s4 := s3 + ": ";
    FreeConcat(s4, ToText(r.recommendation));
    var s5 := s4 + ToText(r.recommendation);
    assert s5 == ShortLine(r);
    FreeConcat(s5, ", before: ");
    var s6 := s5 + ", before: ";
    FreeConcat(s6, ToText(r.exampleBefore));
    var s7 := s6 + ToText(r.exampleBefore);
    FreeConcat(s7, " , after: ");
    var s8 := s7 + " , after: ";
    FreeConcat(s8, ToText(r.exampleAfter));
    var s9 := s8 + ToText(r.exampleAfter);
    FreeConcat(s9, " ");
    assert s9 + " " == GeminiLine(r);
  }

  /** Both lines open with the bullet and the bracketed priority, and the
      Gemini line is the short line followed by the two examples. */
  lemma GeminiLineExtendsShort(r: Recommendation)
    ensures ShortLine(r)[..5] == Bullet + " ["
    ensures GeminiLine(r) == ShortLine(r) + ", before: " + ToText(r.exampleBefore) +
                             " , after: " + ToText(r.exampleAfter) + " "
  {
  }

  /** When no field spans lines, splitting a digest on newlines gives back
      one line per recommendation, in order. */
  lemma DigestLines(a: Assessment)
    requires |a.recommendations| > 0
    requires OneLineFields(a)
    ensures Split(GeminiDigest(a), '\n') == GeminiLines(a)
    ensures Split(ShortDigest(a), '\n') == ShortLines(a)
  {
    forall k | 0 <= k < |a.recommendations|
      ensures Free(GeminiLines(a)[k], '\n') && Free(ShortLines(a)[k], '\n')
    {
      GeminiLineFree(a.recommendations[k]);
    }
    SplitJoin(GeminiLines(a), '\n');
    SplitJoin(ShortLines(a), '\n');
  }

  /** The salary text column: the matched text, or None (sent as ''). */
  function SalaryTextCell(salaryText: Option<string>): Cell {
    if salaryText.Some? then Str(salaryText.value) else Null
  }

  /** The four columns a secondary model adds. */
  function ShortCells(a: Assessment): (r: seq<Cell>)
    ensures |r| == 4
  {
    [Int(a.overallScore), Str(ShortDigest(a)), a.atsScore, a.atsIssues]
  }

  /** The record of a scored posting: its twelve columns, the salary text,
      the primary model's score, digest, ATS score and ATS issues, then four
      columns for each secondary model that ran. */
  function Record(p: Posting, salaryText: Option<string>, g: Assessment,
                  openAi: Option<Assessment>, claude: Option<Assessment>): (r: seq<Cell>)
  {
    Columns(p) +
    [SalaryTextCell(salaryText), Int(g.overallScore), Str(GeminiDigest(g)), g.atsScore, g.atsIssues] +
    (if openAi.Some? then ShortCells(openAi.value) else []) +
    (if claude.Some? then ShortCells(claude.value) else [])
  }

  lemma RecordLayout(p: Posting, salaryText: Option<string>, g: Assessment,
                     openAi: Option<Assessment>, claude: Option<Assessment>)
    ensures var r := Record(p, salaryText, g, openAi, claude);
            var extra := (if openAi.Some? then 4 else 0) + (if claude.Some? then 4 else 0);
            |r| == 17 + extra &&
            r[..12] == Columns(p) &&
            r[12] == SalaryTextCell(salaryText) && r[13] == Int(g.overallScore) &&
            r[14] == Str(GeminiDigest(g)) && r[15] == g.atsScore && r[16] == g.atsIssues &&
            (openAi.Some? ==> r[17..21] == ShortCells(openAi.value)) &&
            (claude.Some? ==> r[17 + extra - 4..] == ShortCells(claude.value))
  {
    var r := Record(p, salaryText, g, openAi, claude);
    var head := Columns(p) + [SalaryTextCell(salaryText), Int(g.overallScore), Str(GeminiDigest(g)), g.atsScore, g.atsIssues];
    var o := if openAi.Some? then ShortCells(openAi.value) else [];
    var c := if claude.Some? then ShortCells(claude.value) else [];
    assert r == head + o + c;
    assert r[..12] == head[..12];
    if openAi.Some? {
      assert r[17..21] == o;
    }
    if claude.Some? {
      assert r[|head + o|..] == c;
    }
  }

  // ---------------------------------------------------------------------
  // One posting
  // ---------------------------------------------------------------------

  /** A posting after the first part of the loop body: its description as
      a string, the salary information extracted from it, and whether it is
      within the salary threshold. */
  datatype Screened = Screened(posting: Posting, description: string, salary: SalaryInfo, inThreshold: bool)

  function Screen(p: Posting): (sc: Screened)
    ensures sc.posting == p
  {
    var description := DescriptionText(p.description);
    Screened(p, description, ExtractSalaryInfo(Text(description)), PassesSalaryGate(description))
  }

  function ScreenAll(ps: seq<Posting>): (r: seq<Screened>)
    ensures |r| == |ps|
    ensures forall k :: 0 <= k < |ps| ==> r[k] == Screen(ps[k])
  {
    seq(|ps|, k requires 0 <= k < |ps| => Screen(ps[k]))
  }

  /** The rest of the loop body, given the ids known so far. Every exception
      the body can raise ends in `Aborted`. */
  function Evaluate(config: Config, sc: Screened, o: Oracle, ids: set<string>): Step
  {
    if !sc.inThreshold then Step(BelowSalaryFloor, false, false, false, [])
    else if sc.posting.jobId in ids then Step(AlreadyPresent, false, false, false, [])
    else if o.gemini.None? then Step(Aborted, true, false, false, [])
    else
      var g := o.gemini.value;
      var customize := g.overallScore >= CustomizationScore;
      var pdf := customize && config.primaryCanCustomize && o.customization.Some?;
      if customize && !config.primaryCanCustomize then Step(Aborted, true, true, false, [])
      else if pdf && o.pdf.PdfRaised? then Step(Aborted, true, true, true, [])
      else if config.runOpenAi && o.openAi.None? then Step(Aborted, true, customize, pdf, [])
      else if config.runClaude && o.claude.None? then Step(Aborted, true, customize, pdf, [])
      else
        var record := Record(sc.posting, sc.salary.salaryText, g,
                             if config.runOpenAi then o.openAi else None,
                             if config.runClaude then o.claude else None);
        Step(if o.append.Appended? then Added else NotAdded, true, customize, pdf, record)
  }

  /** What holds of every step, whatever ids were known: a posting below
      the salary threshold, or whose id is known, is neither scored nor
      written; customization is asked for exactly when the primary model
      scores 80 or more; a PDF is asked for exactly when a customized resume
      came back; only a scored posting has a record, of 17 columns at least,
      keyed by its id; and it is added exactly when the append went through. */
  predicate StepFacts(config: Config, sc: Screened, o: Oracle, s: Step) {
    (s.outcome == BelowSalaryFloor <==> !sc.inThreshold) &&
    (!s.scored ==> s.record == [] && !s.customizationRequested && !s.pdfRequested &&
                   (s.outcome == BelowSalaryFloor || s.outcome == AlreadyPresent)) &&
    ((s.outcome == BelowSalaryFloor || s.outcome == AlreadyPresent) ==> !s.scored) &&
    (s.customizationRequested <==>
       s.scored && o.gemini.Some? && o.gemini.value.overallScore >= CustomizationScore) &&
    (s.pdfRequested <==> s.customizationRequested && config.primaryCanCustomize && o.customization.Some?) &&
    ((s.outcome == Added || s.outcome == NotAdded) <==> s.record != []) &&
    (s.record != [] ==> s.scored && |s.record| >= 17 && s.record[0] == Str(sc.posting.jobId)) &&
    (s.outcome == Added <==> s.record != [] && o.append.Appended?)
  }

  lemma EvaluateFacts(config: Config, sc: Screened, o: Oracle, ids: set<string>)
    ensures StepFacts(config, sc, o, Evaluate(config, sc, o, ids))
    ensures Evaluate(config, sc, o, ids).scored <==> sc.inThreshold && sc.posting.jobId !in ids
  {
  }

  /** As shipped, a posting scored 80 or more stops the run: the primary
      agent has no customization method, the call raises, and the loop's
      handler breaks out. */
  lemma ShippedAbortsOnHighScore(p: Posting, o: Oracle, ids: set<string>)
    requires PassesSalaryGate(DescriptionText(p.description)) && p.jobId !in ids
    requires o.gemini.Some? && o.gemini.value.overallScore >= CustomizationScore
    ensures Evaluate(Shipped, Screen(p), o, ids).outcome == Aborted
    ensures Evaluate(Shipped, Screen(p), o, ids).record == []
  {
  }

  /** With a customization method on the primary agent, a posting scored 80
      or more is customized, a PDF is asked for exactly when a customized
      resume came back, and the posting is recorded unless the PDF writer
      raises or a secondary model that runs gives no answer. */
  lemma CustomizationReachesPdf(config: Config, p: Posting, o: Oracle, ids: set<string>)
    requires config.primaryCanCustomize
    requires PassesSalaryGate(DescriptionText(p.description)) && p.jobId !in ids
    requires o.gemini.Some? && o.gemini.value.overallScore >= CustomizationScore
    requires !o.pdf.PdfRaised?
    requires config.runOpenAi ==> o.openAi.Some?
    requires config.runClaude ==> o.claude.Some?
    ensures var s := Evaluate(config, Screen(p), o, ids);
            s.customizationRequested && (s.pdfRequested <==> o.customization.Some?) &&
            s.outcome != Aborted && s.record != []
  {
  }

  /** A score below 80 never asks for customization, whatever the agent. */
  lemma LowScoreNotCustomized(config: Config, sc: Screened, o: Oracle, ids: set<string>)
    requires o.gemini.Some? && o.gemini.value.overallScore < CustomizationScore
    ensures !Evaluate(config, sc, o, ids).customizationRequested
    ensures !Evaluate(config, sc, o, ids).pdfRequested
  {
  }

  /** The record handed to `add_record` for a scored posting is the posting's
      columns followed by the salary text and the models' columns. */
  lemma EvaluateRecord(config: Config, sc: Screened, o: Oracle, ids: set<string>)
    requires Evaluate(config, sc, o, ids).record != []
    ensures var s := Evaluate(config, sc, o, ids);
            o.gemini.Some? &&
            s.record == Record(sc.posting, sc.salary.salaryText, o.gemini.value,
                               if config.runOpenAi then o.openAi else None,
                               if config.runClaude then o.claude else None) &&
            |s.record| == 17 + (if config.runOpenAi then 4 else 0) + (if config.runClaude then 4 else 0)
  {
    RecordLayout(sc.posting, sc.salary.salaryText, o.gemini.value,
                 if config.runOpenAi then o.openAi else None,
                 if config.runClaude then o.claude else None);
  }

  // ---------------------------------------------------------------------
  // The loop
  // ---------------------------------------------------------------------

  /** The steps taken and the ids known at the end. */
  datatype Trace = Trace(steps: seq<Step>, ids: set<string>)

  function Extend(prefix: seq<Step>, t: Trace): Trace {
    Trace(prefix + t.steps, t.ids)
  }

  /** An id is learnt only from a posting that was added. */
  function NextIds(ids: set<string>, sc: Screened, s: Step): set<string> {
    if s.outcome == Added then ids + {sc.posting.jobId} else ids
  }

  /** The loop over the screened postings, which stops after the first
      abort. */
  function Run(config: Config, items: seq<Screened>, os: seq<Oracle>, ids: set<string>): (t: Trace)
    requires |os| == |items|
    ensures |t.steps| <= |items|
    decreases |items|
  {
    if items == [] then Trace([], ids)
    else
      var s := Evaluate(config, items[0], os[0], ids);
      if s.outcome == Aborted then Trace([s], ids)
      else Extend([s], Run(config, items[1..], os[1..], NextIds(ids, items[0], s)))
  }

  /** The records sent to the sheet, in order: the cleaned record of every
      posting that was added. */
  function Written(steps: seq<Step>): (rows: seq<seq<Cell>>)
    ensures |rows| <= |steps|
  {
    if steps == [] then []
    else
      var last := steps[|steps| - 1];
      Written(steps[..|steps| - 1]) + (if last.outcome == Added then [Cleaned(last.record)] else [])
  }

  /** The first part of the loop body: the description text, its salary
      information, and the salary threshold, in the order of the source. */
  method ScreenPosting(p: Posting) returns (sc: Screened)
    ensures sc == Screen(p)
  {
    var description := DescriptionText(p.description);
    var salaryInfo := ExtractSalaryInfo(Text(description));
    var inThreshold: bool;
    if salaryInfo.hasSalary {
      if salaryInfo.salaryText.None? {
        inThreshold := true;
      } else {
        inThreshold := MeetsMinimumSalary(Text(description), SalaryFloor, "any");
      }
    } else {
      inThreshold := true;
    }
    sc := Screened(p, description, salaryInfo, inThreshold);
  }

  /** The rest of the loop body: the id check, the models, and the append,
      in the order of the source. */
  method ProcessPosting(config: Config, sc: Screened, o: Oracle, existingIds: set<string>, sheet: SheetsManager)
    returns (step: Step, ids: set<string>)
    requires sheet.Valid()
    modifies sheet
    ensures sheet.Valid()
    ensures step == Evaluate(config, sc, o, existingIds)
    ensures ids == NextIds(existingIds, sc, step)
    ensures sheet.appended == old(sheet.appended) + (if step.outcome == Added then [Cleaned(step.record)] else [])
  {
    ids := existingIds;
    var p := sc.posting;
    if !sc.inThreshold {
      step := Step(BelowSalaryFloor, false, false, false, []);
    } else if p.jobId in ids {
      step := Step(AlreadyPresent, false, false, false, []);
    } else if o.gemini.None? {
      step := Step(Aborted, true, false, false, []);
    } else {
      var g := o.gemini.value;
      var customize := g.overallScore >= CustomizationScore;
      var pdf := false;
      var raised := false;
      if customize {
        if !config.primaryCanCustomize {
          raised := true;
        } else if o.customization.Some? {
          pdf := true;
          raised := o.pdf.PdfRaised?;
        }
      }
      var record := Columns(p);
      record := record + [SalaryTextCell(sc.salary.salaryText), Int(g.overallScore),
                          Str(GeminiDigest(g)), g.atsScore, g.atsIssues];
      if !raised && config.runOpenAi {
        if o.openAi.None? {
          raised := true;
        } else {
          record := record + ShortCells(o.openAi.value);
        }
      }
      if !raised && config.runClaude {
        if o.claude.None? {
          raised := true;
        } else {
          record := record + ShortCells(o.claude.value);
        }
      }
      if raised {
        step := Step(Aborted, true, customize, pdf, []);
      } else {
        var result := sheet.AddRecord(record, true, Some([KeyColumn]), o.append);
        if result.added {
          ids := ids + {p.jobId};
        }
        step := Step(if result.added then Added else NotAdded, true, customize, pdf, record);
      }
    }
  }

  /** One turn of the loop, as the definition of the run states it. */
  lemma RunCons(config: Config, items: seq<Screened>, os: seq<Oracle>, ids: set<string>)
    requires |os| == |items| && |items| > 0
    ensures var s := Evaluate(config, items[0], os[0], ids);
            Run(config, items, os, ids) ==
              if s.outcome == Aborted then Trace([s], ids)
              else Extend([s], Run(config, items[1..], os[1..], NextIds(ids, items[0], s)))
  {
  }

  /** One turn of the loop that does not abort moves the split point of the
      run one posting on. */
  lemma RunAdvance(config: Config, items: seq<Screened>, os: seq<Oracle>, seed: set<string>,
                   i: nat, steps: seq<Step>, ids: set<string>, s: Step)
    requires |os| == |items| && i < |items|
    requires Extend(steps, Run(config, items[i..], os[i..], ids)) == Run(config, items, os, seed)
    requires s == Evaluate(config, items[i], os[i], ids)
    ensures s.outcome == Aborted ==> Trace(steps + [s], ids) == Run(config, items, os, seed)
    ensures s.outcome != Aborted ==>
              Extend(steps + [s], Run(config, items[i + 1..], os[i + 1..], NextIds(ids, items[i], s))) ==
              Run(config, items, os, seed)
  {
    assert items[i..][1..] == items[i + 1..] && os[i..][1..] == os[i + 1..];
    RunCons(config, items[i..], os[i..], ids);
    if s.outcome != Aborted {
      var rest := Run(config, items[i + 1..], os[i + 1..], NextIds(ids, items[i], s));
      assert steps + ([s] + rest.steps) == (steps + [s]) + rest.steps;
    }
  }

  /** The rows written after one more step. */
  lemma WrittenSnoc(steps: seq<Step>, s: Step)
    ensures Written(steps + [s]) == Written(steps) + (if s.outcome == Added then [Cleaned(s.record)] else [])
  {
    assert (steps + [s])[..|steps|] == steps;
  }

  lemma ConcatAssoc<T>(a: seq<T>, b: seq<T>, c: seq<T>)
    ensures (a + b) + c == a + (b + c)
  {
  }

  /** `jobsearch.py`'s loop: seed the ids from the sheet, then walk the
      postings, breaking out at the first exception. */
  method RunEnrichment(config: Config, postings: seq<Posting>, oracles: seq<Oracle>,
                       existingRecords: seq<seq<string>>, sheet: SheetsManager)
    returns (steps: seq<Step>, existingIds: set<string>)
    requires |oracles| == |postings|
    requires sheet.Valid()
    modifies sheet
    ensures sheet.Valid()
    ensures Trace(steps, existingIds) == Run(config, ScreenAll(postings), oracles, SeedIds(existingRecords))
    ensures sheet.appended == old(sheet.appended) + Written(steps)
  {
    existingIds := SeedIds(existingRecords);
    ghost var items := ScreenAll(postings);
    ghost var seed := existingIds;
    steps := [];
    var i := 0;
    while i < |postings|
      invariant 0 <= i <= |postings|
      invariant sheet.Valid()
      invariant Extend(steps, Run(config, items[i..], oracles[i..], existingIds)) == Run(config, items, oracles, seed)
      invariant sheet.appended == old(sheet.appended) + Written(steps)
    {
      var sc := ScreenPosting(postings[i]);
      assert sc == items[i];
      var step, nextIds := ProcessPosting(config, sc, oracles[i], existingIds, sheet);
      RunAdvance(config, items, oracles, seed, i, steps, existingIds, step);
      WrittenSnoc(steps, step);
      ConcatAssoc(old(sheet.appended), Written(steps), if step.outcome == Added then [Cleaned(step.record)] else []);
      steps := steps + [step];
      existingIds := nextIds;
      if step.outcome == Aborted {
        break;
      }
      i := i + 1;
    }
  }

  // ---------------------------------------------------------------------
  // Properties of the loop
  // ---------------------------------------------------------------------

  /** The run goes through every posting unless it aborts, and an abort is
      always its last step. */
  lemma {:induction false} RunStopsOnlyAtAbort(config: Config, items: seq<Screened>, os: seq<Oracle>, ids: set<string>)
    requires |os| == |items|
    ensures var t := Run(config, items, os, ids);
            (forall k :: 0 <= k < |t.steps| - 1 ==> t.steps[k].outcome != Aborted) &&
            (|t.steps| < |items| ==> |t.steps| > 0 && t.steps[|t.steps| - 1].outcome == Aborted)
    decreases |items|
  {
    if items != [] {
      var s := Evaluate(config, items[0], os[0], ids);
      if s.outcome != Aborted {
        var next := NextIds(ids, items[0], s);
        var rest := Run(config, items[1..], os[1..], next);
        RunStopsOnlyAtAbort(config, items[1..], os[1..], next);
        var t := Run(config, items, os, ids);
        assert t.steps == [s] + rest.steps;
        forall k | 0 <= k < |t.steps| - 1
          ensures t.steps[k].outcome != Aborted
        {
          if k > 0 {
            assert t.steps[k] == rest.steps[k - 1];
          }
        }
      }
    }
  }

  /** Across a whole run, every step has the facts of a single step. */
  lemma {:induction false} RunStepFacts(config: Config, items: seq<Screened>, os: seq<Oracle>, ids: set<string>)
    requires |os| == |items|
    ensures var t := Run(config, items, os, ids);
            forall k :: 0 <= k < |t.steps| ==> StepFacts(config, items[k], os[k], t.steps[k])
    decreases |items|
  {
    if items != [] {
      var s := Evaluate(config, items[0], os[0], ids);
      EvaluateFacts(config, items[0], os[0], ids);
      var t := Run(config, items, os, ids);
      if s.outcome != Aborted {
        var next := NextIds(ids, items[0], s);
        var rest := Run(config, items[1..], os[1..], next);
        RunStepFacts(config, items[1..], os[1..], next);
        assert t.steps == [s] + rest.steps;
        forall k | 1 <= k < |t.steps|
          ensures StepFacts(config, items[k], os[k], t.steps[k])
        {
          assert t.steps[k] == rest.steps[k - 1] && items[k] == items[1..][k - 1] && os[k] == os[1..][k - 1];
        }
      }
    }
  }

  /** The ids known when the loop reaches posting k: the seeded ones and
      those of the postings added before it. */
  function KnownBefore(ids: set<string>, items: seq<Screened>, steps: seq<Step>, k: nat): set<string>
    requires k <= |steps| && k <= |items|
  {
    ids + (set j | 0 <= j < k && steps[j].outcome == Added :: items[j].posting.jobId)
  }

  /** The ids known before posting k of a run are those known before
      posting k - 1 of the run that starts after the first step. */
  lemma KnownShift(ids: set<string>, items: seq<Screened>, s: Step, steps: seq<Step>, rest: seq<Step>, k: nat)
    requires steps == [s] + rest && |steps| <= |items| && 1 <= k <= |steps|
    ensures KnownBefore(NextIds(ids, items[0], s), items[1..], rest, k - 1) == KnownBefore(ids, items, steps, k)
  {
    var next := NextIds(ids, items[0], s);
    var l := KnownBefore(next, items[1..], rest, k - 1);
    var r := KnownBefore(ids, items, steps, k);
    forall x | x in l
      ensures x in r
    {
      if x !in next {
        var j :| 0 <= j < k - 1 && rest[j].outcome == Added && items[1..][j].posting.jobId == x;
        assert steps[j + 1] == rest[j] && items[j + 1] == items[1..][j];
      } else if x !in ids {
        assert steps[0] == s;
      }
    }
    forall x | x in r
      ensures x in l
    {
      if x !in ids {
        var j :| 0 <= j < k && steps[j].outcome == Added && items[j].posting.jobId == x;
        if j > 0 {
          assert rest[j - 1] == steps[j] && items[1..][j - 1] == items[j];
        }
      }
    }
  }

  /** Each step of a run is the loop body applied to the ids known at that
      point: the seeded ones and those of the postings added before it. */
  lemma {:induction false} RunSeesKnownIds(config: Config, items: seq<Screened>, os: seq<Oracle>, ids: set<string>)
    requires |os| == |items|
    ensures var t := Run(config, items, os, ids);
            forall k :: 0 <= k < |t.steps| ==>
              t.steps[k] == Evaluate(config, items[k], os[k], KnownBefore(ids, items, t.steps, k))
    decreases |items|
  {
    if items != [] {
      var s := Evaluate(config, items[0], os[0], ids);
      var t := Run(config, items, os, ids);
      assert KnownBefore(ids, items, t.steps, 0) == ids;
      if s.outcome != Aborted {
        var next := NextIds(ids, items[0], s);
        var rest := Run(config, items[1..], os[1..], next);
        RunSeesKnownIds(config, items[1..], os[1..], next);
        assert t.steps == [s] + rest.steps;
        forall k | 1 <= k < |t.steps|
          ensures t.steps[k] == Evaluate(config, items[k], os[k], KnownBefore(ids, items, t.steps, k))
        {
          KnownShift(ids, items, s, t.steps, rest.steps, k);
          assert t.steps[k] == rest.steps[k - 1] && items[k] == items[1..][k - 1] && os[k] == os[1..][k - 1];
        }
      }
    }
  }

  /** A posting within the salary threshold is skipped as already present
      exactly when its id was seeded from the sheet or belongs to a posting
      added earlier in the run; a posting whose earlier write did not go
      through is therefore evaluated again. */
  lemma RunAlreadyPresent(config: Config, items: seq<Screened>, os: seq<Oracle>, ids: set<string>)
    requires |os| == |items|
    ensures var t := Run(config, items, os, ids);
            forall k :: 0 <= k < |t.steps| && items[k].inThreshold ==>
              (t.steps[k].outcome == AlreadyPresent <==> items[k].posting.jobId in KnownBefore(ids, items, t.steps, k))
  {
    RunSeesKnownIds(config, items, os, ids);
  }

  /** The known ids at the end are the seeded ones and the ids of the
      postings that were added, and no others. */
  lemma RunIds(config: Config, items: seq<Screened>, os: seq<Oracle>, ids: set<string>, id: string)
    requires |os| == |items|
    ensures var t := Run(config, items, os, ids);
            id in t.ids <==>
              id in ids ||
              exists k :: 0 <= k < |t.steps| && t.steps[k].outcome == Added && items[k].posting.jobId == id
  {
    RunKnownAtEnd(config, items, os, ids);
  }

  /** The ids known at the end of a run are those known after its last
      step. */
  lemma {:induction false} RunKnownAtEnd(config: Config, items: seq<Screened>, os: seq<Oracle>, ids: set<string>)
    requires |os| == |items|
    ensures var t := Run(config, items, os, ids);
            |t.steps| <= |items| && t.ids == KnownBefore(ids, items, t.steps, |t.steps|)
    decreases |items|
  {
    var t := Run(config, items, os, ids);
    if items == [] {
      assert KnownBefore(ids, items, t.steps, 0) == ids;
    } else {
      var s := Evaluate(config, items[0], os[0], ids);
      if s.outcome == Aborted {
        assert KnownBefore(ids, items, t.steps, 1) == ids;
      } else {
        var next := NextIds(ids, items[0], s);
        var rest := Run(config, items[1..], os[1..], next);
        RunKnownAtEnd(config, items[1..], os[1..], next);
        assert t.steps == [s] + rest.steps;
        KnownShift(ids, items, s, t.steps, rest.steps, |t.steps|);
      }
    }
  }

  /** No posting is added twice under the same id, and none whose id the
      sheet already held. */
  lemma {:induction false} RunNoDuplicateAdds(config: Config, items: seq<Screened>, os: seq<Oracle>, ids: set<string>)
    requires |os| == |items|
    ensures var t := Run(config, items, os, ids);
            (forall k :: 0 <= k < |t.steps| && t.steps[k].outcome == Added ==> items[k].posting.jobId !in ids) &&
            (forall k1, k2 ::
               0 <= k1 < k2 < |t.steps| && t.steps[k1].outcome == Added && t.steps[k2].outcome == Added ==>
                 items[k1].posting.jobId != items[k2].posting.jobId)
    decreases |items|
  {
    if items != [] {
      var s := Evaluate(config, items[0], os[0], ids);
      EvaluateFacts(config, items[0], os[0], ids);
      var t := Run(config, items, os, ids);
      if s.outcome != Aborted {
        var next := NextIds(ids, items[0], s);
        var rest := Run(config, items[1..], os[1..], next);
        RunNoDuplicateAdds(config, items[1..], os[1..], next);
        assert t.steps == [s] + rest.steps;
        forall k | 1 <= k < |t.steps|
          ensures t.steps[k] == rest.steps[k - 1] && items[k] == items[1..][k - 1]
        {
        }
      }
    }
  }

  /** As shipped, the first new posting within the salary threshold that
      scores 80 or more is the last one the run looks at, and nothing is
      written for it. */
  lemma ShippedRunHaltsOnHighScore(ps: seq<Posting>, os: seq<Oracle>, ids: set<string>)
    requires |os| == |ps| && |ps| > 0
    requires PassesSalaryGate(DescriptionText(ps[0].description)) && ps[0].jobId !in ids
    requires os[0].gemini.Some? && os[0].gemini.value.overallScore >= CustomizationScore
    ensures |Run(Shipped, ScreenAll(ps), os, ids).steps| == 1
    ensures Written(Run(Shipped, ScreenAll(ps), os, ids).steps) == []
  {
    ShippedAbortsOnHighScore(ps[0], os[0], ids);
    var items := ScreenAll(ps);
    assert items[0] == Screen(ps[0]);
    RunCons(Shipped, items, os, ids);
  }
}
