# JobSearch enrichment core, modelled in Dafny

JobSearch scrapes job postings and filters them on salary. Each new posting
is scored against a resume by a language model (Gemini, optionally OpenAI and
Claude) and appended as a row to a Google Sheet. This project models the core
of that pipeline and proves properties of the model.

- `text.dfy` (`Text`): the string operations the core uses.
  - Python's `str.isspace` set, `strip`, ASCII `lower`.
  - `in` on strings, `replace(',', '')`.
  - `str()` of integers, `'\n'.join` and splitting.
- `cells.dfy` (`Cells`): the Python values a row can hold (`None`, NaN, booleans, integers, strings, lists).
  - Their truthiness, `pd.isna`, `str()` and `repr()`.
- `salary_patterns.dfy` (`SalaryPatterns`): the five regular expressions of `SALARY_PATTERNS` under `re.IGNORECASE`.
  - Each expression has a recogniser that follows the first path a backtracking matcher takes.
  - Each also has a declarative language of matches, with the spans of its capture groups.
  - The recogniser is proved sound against the language. It is also proved complete: at a match's start it succeeds, and what it returns ends no earlier than that match and has the same groups when it ends at the same place.
  - So `re.search` returns the leftmost match of the pattern and, among the matches that start there, the longest. That match is unique.
- `load_utils.dfy` (`LoadUtils`): `has_salary_info`, `extract_salary_info`, `parse_salary_range` with its inner `to_number`, and `meets_minimum_salary`.
- `google_sheets.dfy` (`GoogleSheets`):
  - `_clean_record`, as a loop.
  - `record_exists`, over the rows the sheet returned.
  - `add_record`, as a method of a `SheetsManager` class whose `appended` field is the sequence of rows sent to the sheet.
- `jobsearch.dfy` (`JobSearch`): the script's main loop.
  - The ids already on the sheet seed the first step.
  - Each posting then passes through the salary gate and the duplicate check.
  - It is scored and its record is built with the models' digests.
  - `add_record` is called on it, and the handler breaks out of the loop at the first exception.
  - `RunEnrichment` is the loop as a method. It is proved against `Run`, a function over the screened postings. The properties of the run are proved about `Run`.

The scraper, the models, the PDF writer and the Sheets service are never called. What each of them answers for a posting is an `Oracle` value passed in with the posting. The script's two switches and the existence of a customization method on the primary agent are a `Config` value. `Shipped` is the configuration as the repository has it.

## Model

| member | source | states |
|---|---|---|
| Text.Strip | Utils/LoadUtils.py:82 | the result is the input with its leading and trailing white space removed (Python's white space set), and it has none left at either end |
| Text.Lower | Utils/LoadUtils.py:61 | same length, each character mapped to its lower case, so no ASCII capital is left |
| Text.LowerHasNoUpper | Utils/LoadUtils.py:61-64 | a lower-cased text never contains a pattern that holds an ASCII capital |
| Text.NatToString | Sheets/GoogleSheetsManager.py:168 | the decimal text of a natural number is non-empty, all digits, reads back as the number, is "0" for zero and has no leading zero otherwise |
| Text.IntToString | Sheets/GoogleSheetsManager.py:168 | the text of an integer is "0" for zero, and otherwise its digits, with a leading '-' for a negative one, reading back as the magnitude, with no leading zero |
| Text.SplitJoin | jobsearch.py:197-200 | splitting lines joined by a separator that none of them contains gives the lines back |
| Cells.ListText | Sheets/GoogleSheetsManager.py:55-59 | `str()` of a list is bracketed |
| Cells.ListTextMixed | Sheets/GoogleSheetsManager.py:55-59 | `str(['a', None, 1])` is `['a', None, 1]`: elements are `repr()`ed and joined by ", " |
| Cells.ReprSingleQuote | Sheets/GoogleSheetsManager.py:55-59 | `repr("it's")` switches to double quotes because the text holds a single quote |
| Cells.ListTextQuote | Sheets/GoogleSheetsManager.py:55-59 | `str(["it's"])` is `["it's"]` |
| Cells.ListTextScalars | Sheets/GoogleSheetsManager.py:55-59 | `str([])` is `[]` and `str([True, nan])` is `[True, nan]` |
| SalaryPatterns.MatchAtSound | Utils/LoadUtils.py:33-44 | what a recogniser returns at a position is a match of its pattern that starts there |
| SalaryPatterns.MatchAtComplete | Utils/LoadUtils.py:33-44 | wherever a pattern has a match, its recogniser succeeds at the match's start with a match that ends no earlier, and with the same groups when it ends at the same place, so the matcher never backtracks out of the first path |
| SalaryPatterns.WholeLongest | Utils/LoadUtils.py:35 | a run of `\d{1,3}(?:,\d{3})*` ends no later than the greedy scan, and earlier only in front of a digit or a comma group |
| SalaryPatterns.AmountLongest | Utils/LoadUtils.py:35 | an amount with optional cents ends no later than the greedy scan |
| SalaryPatterns.LangShape | Utils/LoadUtils.py:33-44 | every match lies inside the text, with two groups for the range patterns and one for the single-amount patterns |
| SalaryPatterns.SearchLeftmost | Utils/LoadUtils.py:98 | `re.search` fails iff the pattern matches nowhere; a match it finds is one of the pattern's, starts no later than any other, ends no earlier than any other with the same start, and has that match's groups when both end together |
| SalaryPatterns.LeftmostLongestUnique | Utils/LoadUtils.py:98 | there is only one leftmost-longest match of a pattern in a text |
| LoadUtils.HasSalaryInfo | Utils/LoadUtils.py:47-64 | a missing, NaN or empty description never has salary information |
| LoadUtils.HasSalaryInfoEffective | Utils/LoadUtils.py:21-64 | the keyword test holds iff one of the lower-case keywords occurs in the lower-cased text; the five keywords written with capitals can never match |
| LoadUtils.FirstMatchFrom | Utils/LoadUtils.py:97-99 | the pattern returned is the first in list order that has a match, and no earlier one has any |
| LoadUtils.ExtractSalaryInfo | Utils/LoadUtils.py:67-111 | a missing, NaN or blank-after-strip description gives no salary; a salary text comes exactly with the amounts and implies `has_salary`; without a match on a non-blank text, `has_salary` is the keyword test |
| LoadUtils.ExtractFirstPattern | Utils/LoadUtils.py:96-104 | a returned salary text is the leftmost-longest match, in the stripped text, of the first pattern that matches; the amounts are its captures, as many as the pattern has groups |
| LoadUtils.ExtractReports | Utils/LoadUtils.py:96-104 | on a stripped non-empty text, when earlier patterns find nothing and one finds a match, the result is that match's text and captures |
| LoadUtils.ExtractFallback | Utils/LoadUtils.py:106-108 | with no salary text for a non-blank description, no pattern matches anywhere and only the keyword test decides |
| LoadUtils.ToNumber | Utils/LoadUtils.py:133-141 | the empty text gives `None`, and only it does; any value produced is non-negative |
| LoadUtils.ScaledBounds | Utils/LoadUtils.py:139-140 | scaling never lowers a value, turns every value of at least 1 into at least 1000, and leaves only 0 at 0 |
| LoadUtils.ToNumberThousands | Utils/LoadUtils.py:136-141 | "150" converts to 150000 |
| LoadUtils.ToNumberDropsCommas | Utils/LoadUtils.py:136-141 | "1,500" converts to 1500 |
| LoadUtils.ToNumberInvalid | Utils/LoadUtils.py:133-154 | "abc" is the `ValueError` case |
| LoadUtils.ExtractedAmountsConvert | Utils/LoadUtils.py:133-141 | there are one or two extracted amounts, and every one converts to a number, so the `ValueError` handler is never reached from the loop |
| LoadUtils.ParseSalaryRange | Utils/LoadUtils.py:114-156 | both ends of a returned range are positive |
| LoadUtils.Pick | Utils/LoadUtils.py:143-151 | a range is built from the first two numbers, or from the single one twice, only when they are non-zero values |
| LoadUtils.PickCases | Utils/LoadUtils.py:143-151 | one or two converted values give no range iff one of them is zero, and otherwise give them in order |
| LoadUtils.ParseSalaryRangeNone | Utils/LoadUtils.py:124-156 | no range iff there is no salary match or some amount converts to zero |
| LoadUtils.ParseSalaryRangeOrder | Utils/LoadUtils.py:143-151 | the minimum is the first captured amount and the maximum the last, unsorted |
| LoadUtils.ParseDollarRange | Utils/LoadUtils.py:114-156 | "$100,000 - $150,000" parses to the range 100000 to 150000 |
| LoadUtils.ParseKRange | Utils/LoadUtils.py:114-156 | "$100k - $150k" parses to the range 100000 to 150000 |
| LoadUtils.ParseUpTo | Utils/LoadUtils.py:114-156 | "Up to $120k" matches only the single-amount pattern, on "$120", and parses to 120000 at both ends |
| LoadUtils.ParseSalaryRangeNeedsMatch | Utils/LoadUtils.py:126-127 | keywords alone never give a range |
| LoadUtils.MeetsMinimumSalary | Utils/LoadUtils.py:159-194 | passing any check requires a parsed range |
| LoadUtils.MeetsAnyIsMinOrMax | Utils/LoadUtils.py:184-192 | "any" holds iff "min" or "max" holds |
| LoadUtils.MeetsAvgBetween | Utils/LoadUtils.py:184-192 | "min" and "max" together imply "avg", and "avg" implies "any" |
| LoadUtils.MeetsUnknownMode | Utils/LoadUtils.py:193-194 | an unknown check type never passes |
| LoadUtils.MeetsModes | Utils/LoadUtils.py:184-190 | "min" holds iff a range exists and its minimum is >= the threshold, "max" likewise for its maximum, and "avg" for the average of the two |
| LoadUtils.MeetsInclusive | Utils/LoadUtils.py:184-192 | the comparisons are inclusive: on a parsed range, the minimum passes "min" and "any", the maximum passes "max" and the average passes "avg" |
| LoadUtils.MeetsMonotone | Utils/LoadUtils.py:184-192 | lowering the threshold never turns a pass into a failure |
| LoadUtils.MeetsAnyAmounts | Utils/LoadUtils.py:177-192 | "any" holds iff a range exists and one of its ends reaches the threshold |
| LoadUtils.DollarRangeBelowFloor | Utils/LoadUtils.py:184-192 | "$100,000 - $150,000" fails the "any" check against 160000 |
| GoogleSheets.CleanCell | Sheets/GoogleSheetsManager.py:53-71 | every cleaned cell is sheet-safe (neither a list nor missing); a safe cell is kept, a list becomes its `str()`, a missing value becomes '' |
| GoogleSheets.Cleaned | Sheets/GoogleSheetsManager.py:39-74 | the cleaned record has the same length, and each cell is the cleaned cell at the same position |
| GoogleSheets.CleanRecord | Sheets/GoogleSheetsManager.py:49-72 | the loop returns the cleaned record, and all of its cells are sheet-safe |
| GoogleSheets.CleanedIdempotent | Sheets/GoogleSheetsManager.py:53-71 | cleaning twice is cleaning once; every cleaned cell is safe; safe cells are left in place |
| GoogleSheets.CleanedList | Sheets/GoogleSheetsManager.py:55-59 | a list cell is sent as bracketed text |
| GoogleSheets.CleanedMixedList | Sheets/GoogleSheetsManager.py:53-71 | the record `[['a', None, 1], None]` is sent as `["['a', None, 1]", '']` |
| GoogleSheets.DataRows | Sheets/GoogleSheetsManager.py:104-108 | the header is dropped only when there are two rows or more |
| GoogleSheets.Padded | Sheets/GoogleSheetsManager.py:112 | the row's cells are kept and followed by '' up to the record's length |
| GoogleSheets.PyIndex | Sheets/GoogleSheetsManager.py:117 | a negative index counts from the end, and only an index before the start is an IndexError |
| GoogleSheets.RecordExistsMeaning | Sheets/GoogleSheetsManager.py:90-128 | with non-negative key columns, the lookup never raises and answers True iff some data row has the record's string in each compared column: the key columns inside the record, or every column of the record |
| GoogleSheets.RecordExistsEmpty | Sheets/GoogleSheetsManager.py:102-128 | an empty sheet holds nothing |
| GoogleSheets.RecordExistsHeader | Sheets/GoogleSheetsManager.py:105-106 | once there are two rows, the first is never compared |
| GoogleSheets.RecordExistsSingleRow | Sheets/GoogleSheetsManager.py:105-108 | a lone row is compared as data, while the first of two rows is not |
| GoogleSheets.RecordExistsKeysBeyond | Sheets/GoogleSheetsManager.py:116-120 | key columns all beyond the record filter everything out, so any data row matches |
| GoogleSheets.RecordExistsNegativeKey | Sheets/GoogleSheetsManager.py:116-120 | a negative key column before the start of the record raises on the first data row |
| GoogleSheets.RecordExistsLongerRow | Sheets/GoogleSheetsManager.py:112-123 | extra cells at the end of a row do not stop a full comparison from matching |
| GoogleSheets.SheetsManager.AddRecord | Sheets/GoogleSheetsManager.py:130-176 | added iff the append went through; on success exactly the cleaned record is appended and the message names the row count; on failure nothing changes and the message is the failure text; `skip_if_exists` and `key_columns` have no effect; every row sent stays sheet-safe |
| GoogleSheets.AddedMessageCount | Sheets/GoogleSheetsManager.py:166-170 | the message names the updated row count, or 0 when the response has none |
| JobSearch.Columns | jobsearch.py:122 | a posting's row has twelve columns, with the id at 0, the apply link at 8 and the description at 10 |
| JobSearch.SeedIdsMeaning | jobsearch.py:115-132 | an id is seeded iff it heads a non-empty row after the first one |
| JobSearch.SeedIdsSingleRow | jobsearch.py:118 | a sheet of a single row seeds nothing, unlike `record_exists`, which would compare that row |
| JobSearch.DescriptionText | jobsearch.py:137-150 | a string description is kept; a falsy non-string becomes ''; NaN becomes "nan" |
| JobSearch.SalaryGateMeaning | jobsearch.py:152-176 | a posting is dropped iff an amount was matched and the range either does not parse or has both ends below 160000 |
| JobSearch.SalaryGateNoSalary | jobsearch.py:173-175 | with no salary keyword or amount, a posting always passes |
| JobSearch.GeminiLineExtendsShort | jobsearch.py:198-200 | a Gemini digest line opens with the bullet and the bracketed priority, and is the short line followed by ", before: ", the example before, " , after: ", the example after and a space |
| JobSearch.DigestLines | jobsearch.py:196-252 | when no field spans lines, a digest splits back into one line per recommendation, in order |
| JobSearch.RecordLayout | jobsearch.py:216-262 | a record is the twelve columns, then the salary text, score, digest, ATS score and ATS issues, then four columns per secondary model that ran, in that order |
| JobSearch.Screen | jobsearch.py:136-176 | the screened form keeps its posting |
| JobSearch.ScreenAll | jobsearch.py:134-176 | one screened item per posting, in order |
| JobSearch.ScreenPosting | jobsearch.py:136-176 | the first part of the loop body computes exactly the screened form of the posting |
| JobSearch.EvaluateFacts | jobsearch.py:184-268 | below the threshold or already known means neither scored nor written; only those are unscored; customization is asked for iff the score is 80 or more; a PDF is asked for iff a customized resume came back; only a scored posting has a record of 17 or more columns headed by its id; it is added iff the append went through |
| JobSearch.ShippedAbortsOnHighScore | jobsearch.py:207-274 | as shipped, a new in-threshold posting that scores 80 or more aborts, and nothing is recorded for it |
| JobSearch.CustomizationReachesPdf | jobsearch.py:207-220 | with a customization method present, a posting that scores 80 or more is customized; a PDF is asked for iff a resume came back; the posting is recorded unless the PDF writer or a secondary model raises |
| JobSearch.LowScoreNotCustomized | jobsearch.py:207 | a score below 80 never asks for customization or a PDF |
| JobSearch.EvaluateRecord | jobsearch.py:216-265 | a record handed to `add_record` comes from the primary model's answer and has 17 columns plus four per secondary model that ran |
| JobSearch.Run | jobsearch.py:134-274 | the run takes at most one step per posting |
| JobSearch.Written | jobsearch.py:265 | no more rows are written than steps taken |
| JobSearch.ProcessPosting | jobsearch.py:182-274 | the rest of the loop body takes exactly the step the specification gives; it learns the id only of an added posting; it appends exactly that posting's cleaned record and nothing else |
| JobSearch.RunEnrichment | jobsearch.py:115-274 | the loop's steps and final ids are those of the run from the seeded ids, and the sheet gains exactly the cleaned records of the added postings, in order |
| JobSearch.RunStopsOnlyAtAbort | jobsearch.py:134-274 | the loop visits every posting unless it aborts, and an abort is always the last step |
| JobSearch.RunStepFacts | jobsearch.py:134-274 | every step of a run has the facts of a single step |
| JobSearch.RunSeesKnownIds | jobsearch.py:184-268 | each step of a run is the single step taken with the seeded ids plus the ids of the postings added before it |
| JobSearch.RunAlreadyPresent | jobsearch.py:184-185 | a posting within the threshold is skipped as already present iff its id was seeded or belongs to a posting added earlier in the run |
| JobSearch.RunKnownAtEnd | jobsearch.py:265-268 | the final ids are the seeded ids plus the ids of every posting added during the run |
| JobSearch.RunIds | jobsearch.py:265-268 | the final ids are the seeded ids plus the ids of the added postings, and no others |
| JobSearch.RunNoDuplicateAdds | jobsearch.py:184-268 | no posting whose id was already on the sheet is added, and no id is added twice |
| JobSearch.ShippedRunHaltsOnHighScore | jobsearch.py:207-274 | as shipped, when the first posting is new, in threshold and scored 80 or more, the run ends after it and writes nothing |

## Left out

- The Sheets service, the scraper and its event callbacks, the language models and their prompts, the PDF writer, environment variables and logging are not modelled. Their answers are oracle parameters.
- `read_all_records` is not modelled: the rows it returns are a parameter, as lists of strings (the formatted values the Sheets API returns).
- `convert_to_json`, `save_to_pdf` and the agents' `execute_agent` bodies are not modelled; Agents/ is not part of this model except for which methods GeminiLLMAgent defines.
- `\d` is ASCII digits only; Python's `\d` also matches other Unicode decimal digits.
- Lower-casing maps only ASCII capitals and the Kelvin sign. That is all the keyword test and `k` under IGNORECASE can depend on here.
- LoadUtils.ToNumber: `float()` is modelled on the digit forms that occur in this code (digits, optionally a point and more digits). Every other text is `Invalid`, including exponents, signs, `inf`, `nan` and underscores, which Python would also accept.
- LoadUtils.ToNumber: values are exact reals, with no floating-point rounding.
- Cells.Repr: escapes only ASCII control characters, and keeps non-ASCII characters as they are. `str()` of `np.ndarray` and `pd.Series` cells is not modelled; only Python lists are.
- GoogleSheets.CleanRecord: the `except` branch of the clean-up is left out, because no value in the model can raise there.
- GoogleSheets.SheetsManager.AddRecord: the `result` entry of the returned dictionary, the raw API response, is left out.
- GoogleSheets.RecordExists is not called by the loop, because `add_record`'s existence check is commented out. It is modelled on its own.
- JobSearch.Evaluate: every exception the loop body can raise other than the ones named is folded into an oracle answer of `None`. Those named are the missing customization method, the PDF writer raising, and a model answer missing or lacking a key.
- JobSearch.Evaluate: scores are integers; the model does not cover a non-integer `overall_score`.
- JobSearch.Evaluate: the case where `add_record` itself raises is not modelled. It returns a failure message instead of raising.

## Findings

| source | as written | input that shows it | evidently intended | confidence | as-written member | corrected member |
|---|---|---|---|---|---|---|
| jobsearch.py:207-208 | `GeminiAgent.LLM_Resume_Customization(...)` is called, but GeminiLLMAgent (Agents/GeminiLLMAgent.py:14-54) defines only `__init__` and `execute_agent`, so the call raises AttributeError, the handler at 272-274 breaks out, and the posting and every later one are never written | a new posting within the salary threshold whose Gemini `overall_score` is 80 or more | a customized resume is requested, written as a PDF when one comes back, and the posting is still recorded and the loop continues | not executed | JobSearch.ShippedRunHaltsOnHighScore | JobSearch.CustomizationReachesPdf |
