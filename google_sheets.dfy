/** The sheet helpers the pipeline relies on: cleaning a row before it is
    sent, looking a row up among the rows read back from the sheet, and
    appending a row. The Sheets service itself is not modelled: what the
    sheet holds is passed in, and the outcome of an append is a parameter. */
module GoogleSheets {
  import opened Wrappers
  import opened Text
  import opened Cells

  // ---------------------------------------------------------------------
  // Cleaning a record
  // ---------------------------------------------------------------------

  /** A cell the Sheets API accepts: a scalar that is not missing. */
  predicate SheetSafe(c: Cell) {
    !c.List? && !IsMissing(c)
  }

  /** One cell of `_clean_record`: a list becomes its `str()` text, a missing
      value becomes the empty string, anything else is kept. */
  function CleanCell(c: Cell): (r: Cell)
    ensures SheetSafe(r)
    ensures SheetSafe(c) ==> r == c
    ensures c.List? ==> r == Str(ToText(c))
    ensures IsMissing(c) ==> r == Str("")
  {
    if c.List? then Str(ToText(c))
    else if IsMissing(c) then Str("")
    else c
  }

  /** The cleaned record, cell by cell. */
  function Cleaned(record: seq<Cell>): (r: seq<Cell>)
    ensures |r| == |record|
    ensures forall i :: 0 <= i < |r| ==> r[i] == CleanCell(record[i])
  {
    seq(|record|, i requires 0 <= i < |record| => CleanCell(record[i]))
  }

  /** `_clean_record`: walks the record once, appending the cleaned form of
      each cell. */
  method CleanRecord(record: seq<Cell>) returns (cleaned: seq<Cell>)
    ensures cleaned == Cleaned(record)
    ensures forall i :: 0 <= i < |cleaned| ==> SheetSafe(cleaned[i])
  {
    cleaned := [];
    var i := 0;
    while i < |record|
      invariant 0 <= i <= |record|
      invariant cleaned == Cleaned(record[..i])
    {
      var value := record[i];
      if value.List? {
        cleaned := cleaned + [Str(ToText(value))];
      } else if IsMissing(value) {
        cleaned := cleaned + [Str("")];
      } else {
        cleaned := cleaned + [value];
      }
      i := i + 1;
    }
    assert record[..i] == record;
  }

  /** Cleaning keeps the length and the position of every cell, turns every
      cell into a sheet-safe one and leaves a cleaned record as it is. */
  lemma CleanedIdempotent(record: seq<Cell>)
    ensures Cleaned(Cleaned(record)) == Cleaned(record)
    ensures forall i :: 0 <= i < |record| ==> SheetSafe(Cleaned(record)[i])
    ensures forall i :: 0 <= i < |record| && SheetSafe(record[i]) ==> Cleaned(record)[i] == record[i]
  {
  }

  /** A list cell is sent as its bracketed `str()` text. */
  lemma CleanedList(items: seq<Cell>)
    ensures var r := CleanCell(List(items));
            r.Str? && |r.s| >= 2 && r.s[0] == '[' && r.s[|r.s| - 1] == ']'
  {
    ListText(items);
  }

  /** A list holding a string, a missing value and a number is sent as the
      text Python prints for it, not as blanks or separate cells. */
  lemma CleanedMixedList()
    ensures CleanCell(List([Str("a"), Null, Int(1)])) == Str("['a', None, 1]")
    ensures Cleaned([List([Str("a"), Null, Int(1)]), Null]) == [Str("['a', None, 1]"), Str("")]
  {
    ListTextMixed();
  }

  // ---------------------------------------------------------------------
  // Looking a record up
  // ---------------------------------------------------------------------

  /** What `record_exists` ends with: an answer, or the IndexError that a
      negative key column out of range raises. */
  datatype Lookup = Checked(found: bool) | IndexRaised

  /** The rows compared: the header is dropped only when there are two rows
      or more, so a lone row is compared as data. */
  function DataRows(rows: seq<seq<string>>): (r: seq<seq<string>>)
    ensures |rows| > 1 ==> r == rows[1..]
    ensures |rows| <= 1 ==> r == rows
  {
    if |rows| > 1 then rows[1..] else rows
  }

  /** `row + [''] * (n - len(row))`. */
  function Padded(row: seq<string>, n: nat): (r: seq<string>)
    ensures |r| == if |row| < n then n else |row|
    ensures forall j :: 0 <= j < |row| ==> r[j] == row[j]
    ensures forall j :: |row| <= j < |r| ==> r[j] == ""
  {
    row + seq(if |row| < n then n - |row| else 0, _ => "")
  }

  /** Python's index `i` into a sequence of length `n` known to satisfy
      `i < n`: a negative index counts from the end; None is an IndexError. */
  function PyIndex(n: nat, i: int): (r: Option<nat>)
    requires i < n
    ensures r.Some? ==> r.value < n
    ensures r.None? <==> i + n < 0
    ensures i >= 0 ==> r == Some(i)
  {
    if i >= 0 then Some(i) else if n + i >= 0 then Some(n + i) else None
  }

  /** A value read back from the sheet (a string) equals a record cell only
      when that cell is the same string. */
  predicate SameValue(read: string, c: Cell) {
    c == Str(read)
  }

  /** The `all(...)` over the key columns, in order and short-circuiting:
      a key at or beyond either length is filtered out, a mismatch ends the
      scan with False. */
  function KeysMatch(padded: seq<string>, record: seq<Cell>, keys: seq<int>): (r: Lookup)
    decreases |keys|
  {
    if keys == [] then Checked(true)
    else
      var i := keys[0];
      if !(i < |padded| && i < |record|) then KeysMatch(padded, record, keys[1..])
      else
        match (PyIndex(|padded|, i), PyIndex(|record|, i))
        case (Some(a), Some(b)) =>
          if SameValue(padded[a], record[b]) then KeysMatch(padded, record, keys[1..])
          else Checked(false)
        case _ => IndexRaised
  }

  function AsCells(values: seq<string>): (r: seq<Cell>)
    ensures |r| == |values|
    ensures forall j :: 0 <= j < |r| ==> r[j] == Str(values[j])
  {
    seq(|values|, j requires 0 <= j < |values| => Str(values[j]))
  }

  /** One row of the loop: key columns when a non-empty list of them is
      given, otherwise `padded_row[:len(record)] == record`. */
  function RowLookup(row: seq<string>, record: seq<Cell>, keyColumns: Option<seq<int>>): (r: Lookup)
  {
    var padded := Padded(row, |record|);
    if keyColumns.Some? && keyColumns.value != [] then KeysMatch(padded, record, keyColumns.value)
    else Checked(AsCells(padded[..|record|]) == record)
  }

  /** The loop over the rows: the first match answers True, the first error
      propagates. */
  function SearchRows(rows: seq<seq<string>>, record: seq<Cell>, keyColumns: Option<seq<int>>): (r: Lookup)
    decreases |rows|
  {
    if rows == [] then Checked(false)
    else
      match RowLookup(rows[0], record, keyColumns)
      case Checked(true) => Checked(true)
      case Checked(false) => SearchRows(rows[1..], record, keyColumns)
      case IndexRaised => IndexRaised
  }

  /** `record_exists`, over the rows the sheet returned. */
  function RecordExists(rows: seq<seq<string>>, record: seq<Cell>, keyColumns: Option<seq<int>>): (r: Lookup)
  {
    SearchRows(DataRows(rows), record, keyColumns)
  }

  // Reference definition: what a match means, cell by cell.

  /** Cell `j` of a row, with the padding. */
  function RowCell(row: seq<string>, j: nat): string {
    if j < |row| then row[j] else ""
  }

  predicate NonNegativeKeys(keyColumns: Option<seq<int>>) {
    keyColumns.Some? ==> forall k :: 0 <= k < |keyColumns.value| ==> keyColumns.value[k] >= 0
  }

  /** A row matches when every compared column holds the record's string:
      the key columns inside the record when keys are given, every column of
      the record otherwise. Columns of the row beyond the record are never
      compared. */
  predicate Matches(row: seq<string>, record: seq<Cell>, keyColumns: Option<seq<int>>) {
    if keyColumns.Some? && keyColumns.value != [] then
      forall k :: 0 <= k < |keyColumns.value| && 0 <= keyColumns.value[k] < |record| ==>
        SameValue(RowCell(row, keyColumns.value[k]), record[keyColumns.value[k]])
    else
      forall j :: 0 <= j < |record| ==> SameValue(RowCell(row, j), record[j])
  }

  lemma {:induction false} KeysMatchMeaning(row: seq<string>, record: seq<Cell>, keys: seq<int>)
    requires forall k :: 0 <= k < |keys| ==> keys[k] >= 0
    ensures KeysMatch(Padded(row, |record|), record, keys) ==
            Checked(forall k :: 0 <= k < |keys| && keys[k] < |record| ==>
                      SameValue(RowCell(row, keys[k]), record[keys[k]]))
    decreases |keys|
  {
    var padded := Padded(row, |record|);
    if keys != [] {
      KeysMatchMeaning(row, record, keys[1..]);
      var i := keys[0];
      if i < |record| {
        assert padded[i] == RowCell(row, i);
      }
      forall k | 0 <= k < |keys[1..]|
        ensures keys[1..][k] == keys[k + 1]
      {
      }
    }
  }

  lemma RowLookupMeaning(row: seq<string>, record: seq<Cell>, keyColumns: Option<seq<int>>)
    requires NonNegativeKeys(keyColumns)
    ensures RowLookup(row, record, keyColumns) == Checked(Matches(row, record, keyColumns))
  {
    if keyColumns.Some? && keyColumns.value != [] {
      KeysMatchMeaning(row, record, keyColumns.value);
    } else {
      var padded := Padded(row, |record|);
      var cells := AsCells(padded[..|record|]);
      if cells == record {
        forall j | 0 <= j < |record|
          ensures SameValue(RowCell(row, j), record[j])
        {
          assert cells[j] == Str(padded[j]);
        }
      }
      if Matches(row, record, keyColumns) {
        assert forall j :: 0 <= j < |record| ==> cells[j] == record[j];
      }
    }
  }

  lemma {:induction false} SearchRowsMeaning(rows: seq<seq<string>>, record: seq<Cell>, keyColumns: Option<seq<int>>)
    requires NonNegativeKeys(keyColumns)
    ensures SearchRows(rows, record, keyColumns) ==
            Checked(exists j :: 0 <= j < |rows| && Matches(rows[j], record, keyColumns))
    decreases |rows|
  {
    if rows != [] {
      RowLookupMeaning(rows[0], record, keyColumns);
      SearchRowsMeaning(rows[1..], record, keyColumns);
      if exists j :: 0 <= j < |rows| && Matches(rows[j], record, keyColumns) {
        var j :| 0 <= j < |rows| && Matches(rows[j], record, keyColumns);
        if j > 0 {
          assert rows[1..][j - 1] == rows[j];
        }
      }
    }
  }

  /** With no negative key column the lookup never raises, and it answers
      True exactly when some data row matches. */
  lemma RecordExistsMeaning(rows: seq<seq<string>>, record: seq<Cell>, keyColumns: Option<seq<int>>)
    requires NonNegativeKeys(keyColumns)
    ensures var data := DataRows(rows);
            RecordExists(rows, record, keyColumns) ==
            Checked(exists j :: 0 <= j < |data| && Matches(data[j], record, keyColumns))
  {
    SearchRowsMeaning(DataRows(rows), record, keyColumns);
  }

  /** An empty sheet holds nothing. */
  lemma RecordExistsEmpty(record: seq<Cell>, keyColumns: Option<seq<int>>)
    ensures RecordExists([], record, keyColumns) == Checked(false)
  {
  }

  /** The first row is a header, and is never compared, once there are two
      rows or more. */
  lemma RecordExistsHeader(rows: seq<seq<string>>, header: seq<string>, record: seq<Cell>, keyColumns: Option<seq<int>>)
    requires |rows| > 1
    ensures RecordExists(rows, record, keyColumns) == RecordExists([header] + rows[1..], record, keyColumns)
  {
    assert ([header] + rows[1..])[1..] == rows[1..];
  }

  /** A lone row is compared as data, while the first of two rows is not
      compared at all. */
  lemma RecordExistsSingleRow(first: seq<string>, second: seq<string>, record: seq<Cell>, keyColumns: Option<seq<int>>)
    requires NonNegativeKeys(keyColumns)
    ensures RecordExists([first], record, keyColumns) == Checked(Matches(first, record, keyColumns))
    ensures RecordExists([first, second], record, keyColumns) == Checked(Matches(second, record, keyColumns))
  {
    RecordExistsMeaning([first], record, keyColumns);
    RecordExistsMeaning([first, second], record, keyColumns);
    assert DataRows([first, second]) == [second];
  }

  /** Key columns that lie beyond the record are all filtered out, so every
      data row matches. */
  lemma RecordExistsKeysBeyond(rows: seq<seq<string>>, record: seq<Cell>, keys: seq<int>)
    requires keys != []
    requires forall k :: 0 <= k < |keys| ==> keys[k] >= |record|
    ensures RecordExists(rows, record, Some(keys)) == Checked(|DataRows(rows)| > 0)
  {
    RecordExistsMeaning(rows, record, Some(keys));
    if |DataRows(rows)| > 0 {
      assert Matches(DataRows(rows)[0], record, Some(keys));
    }
  }

  /** A negative key column that reaches before the start of the record
      raises IndexError on the first data row. */
  lemma RecordExistsNegativeKey(rows: seq<seq<string>>, record: seq<Cell>, i: int)
    requires i < -|record|
    requires |DataRows(rows)| > 0
    ensures RecordExists(rows, record, Some([i])) == IndexRaised
  {
  }

  /** Extra cells at the end of a row do not stop it from matching on a full
      comparison. */
  lemma RecordExistsLongerRow(rows: seq<seq<string>>, record: seq<Cell>, extra: seq<string>)
    requires |rows| > 1
    requires forall j :: 0 <= j < |record| ==> record[j].Str?
    ensures var row := seq(|record|, j requires 0 <= j < |record| => record[j].s) + extra;
            RecordExists([rows[0], row] + rows[1..], record, None) == Checked(true)
  {
    var row := seq(|record|, j requires 0 <= j < |record| => record[j].s) + extra;
    var all := [rows[0], row] + rows[1..];
    RecordExistsMeaning(all, record, None);
    assert DataRows(all)[0] == row;
    forall j | 0 <= j < |record|
      ensures SameValue(RowCell(row, j), record[j])
    {
      assert row[j] == record[j].s;
    }
    assert Matches(row, record, None);
  }

  // ---------------------------------------------------------------------
  // Appending a record
  // ---------------------------------------------------------------------

  /** How the append call ended: the response (whose
      `updates.updatedRows` may be absent), or an exception. */
  datatype AppendOutcome = Appended(updatedRows: Option<int>) | AppendRaised

  datatype AddResult = AddResult(added: bool, message: string)

  /** The message on success, reading an absent row count as 0. */
  function AddedMessage(updatedRows: Option<int>): (m: string)
  {
    "Record added. Updated " + IntToString(if updatedRows.Some? then updatedRows.value else 0) + " rows"
  }

  const InsertFailure: string := "Record insert failure"

  /** The sheet as this manager has written it. */
  class SheetsManager {
    /** The rows appended through this manager, oldest first, as sent. */
    var appended: seq<seq<Cell>>

    /** Every row sent is made of sheet-safe cells. */
    predicate Valid()
      reads this
    {
      forall k, j :: 0 <= k < |appended| && 0 <= j < |appended[k]| ==> SheetSafe(appended[k][j])
    }

    constructor ()
      ensures appended == []
      ensures Valid()
    {
      appended := [];
    }

    /** `add_record`: the existence check is switched off, so neither
        `skipIfExists` nor `keyColumns` has any effect; the cleaned record
        is appended, and the result reports whether the append went through. */
    method AddRecord(record: seq<Cell>, skipIfExists: bool, keyColumns: Option<seq<int>>, outcome: AppendOutcome)
      returns (r: AddResult)
      requires Valid()
      modifies this
      ensures Valid()
      ensures r.added <==> outcome.Appended?
      ensures outcome.Appended? ==>
                appended == old(appended) + [Cleaned(record)] && r.message == AddedMessage(outcome.updatedRows)
      ensures outcome.AppendRaised? ==> appended == old(appended) && r.message == InsertFailure
    {
      var cleaned := CleanRecord(record);
      match outcome {
        case Appended(updatedRows) =>
          appended := appended + [cleaned];
          r := AddResult(true, AddedMessage(updatedRows));
        case AppendRaised =>
          r := AddResult(false, InsertFailure);
      }
    }
  }

  /** The success message names the row count, or 0 when the response has
      none. */
  lemma AddedMessageCount(n: nat)
    ensures AddedMessage(Some(n)) == "Record added. Updated " + NatToString(n) + " rows"
    ensures AddedMessage(None) == "Record added. Updated 0 rows"
  {
    assert NatToString(0) == "0";
  }
}
