/** The patch sheet: the rows of the `moodle-data` worksheet as the spreadsheet
    library hands them over (one map from column header to cell per row, empty
    cells left out), their date validation and the patch set keyed by `id`. */
module Sheet {
  import opened Wrappers

  /** A cell value: text, a number, a boolean or a date (in milliseconds). */
  datatype Cell = Absent | Text(s: string) | Number(n: int) | Flag(b: bool) | DateCell(ms: int)

  /** JavaScript truthiness of a cell value. */
  predicate Truthy(c: Cell) {
    match c
    case Absent => false
    case Text(s) => s != ""
    case Number(n) => n != 0
    case Flag(b) => b
    case DateCell(_) => true
  }

  type SheetRow = map<string, Cell>

  /** `row[col]` */
  function Field(row: SheetRow, col: string): Cell {
    if col in row then row[col] else Absent
  }

  /** `COLUMNS` (src/magic.js:184-191), the date columns of a row. */
  const Columns: seq<string> :=
    ["completionexpected", "availableFrom", "availableTo", "allowsubmissionsfromdate", "duedate", "cutoffdate"]

  /** The patch data: a map from a row's `id` cell to the row. */
  type PatchSet = map<Cell, SheetRow>

  /** `patchData.set(row.id, row)` for each row in order: a later row with the
      same id replaces an earlier one. */
  function Keyed(rows: seq<SheetRow>): PatchSet {
    if |rows| == 0 then map[]
    else Keyed(rows[..|rows| - 1])[Field(rows[|rows| - 1], "id") := rows[|rows| - 1]]
  }

  // ------------------------------------------------------ lenient (src/magic.js)

  /** A date cell the lenient check refuses: truthy, not a date, and not
      accepted by `new Date(cell)` (toDate; None stands for an invalid date). */
  predicate LenientRejects(c: Cell, toDate: Cell -> Option<int>) {
    Truthy(c) && !c.DateCell? && toDate(c).None?
  }

  /** Whether the lenient check replaces the cell by the date parsed from it. */
  predicate Convertible(c: Cell, toDate: Cell -> Option<int>) {
    Truthy(c) && !c.DateCell? && toDate(c).Some?
  }

  /** `row[col] = new Date(row[col])` when that applies. */
  function CoerceColumn(row: SheetRow, col: string, toDate: Cell -> Option<int>): SheetRow {
    if Convertible(Field(row, col), toDate) then row[col := DateCell(toDate(Field(row, col)).value)] else row
  }

  /** The columns cols coerced one after the other. */
  function CoerceAll(row: SheetRow, cols: seq<string>, toDate: Cell -> Option<int>): SheetRow {
    if |cols| == 0 then row
    else CoerceColumn(CoerceAll(row, cols[..|cols| - 1], toDate), cols[|cols| - 1], toDate)
  }

  function CoerceRow(row: SheetRow, toDate: Cell -> Option<int>): SheetRow {
    CoerceAll(row, Columns, toDate)
  }

  function CoerceRows(rows: seq<SheetRow>, toDate: Cell -> Option<int>): seq<SheetRow> {
    seq(|rows|, k requires 0 <= k < |rows| => CoerceRow(rows[k], toDate))
  }

  predicate RowRejected(row: SheetRow, toDate: Cell -> Option<int>) {
    exists k :: 0 <= k < |Columns| && LenientRejects(Field(row, Columns[k]), toDate)
  }

  lemma ColumnsDistinct()
    ensures forall a, b :: 0 <= a < b < |Columns| ==> Columns[a] != Columns[b]
  {
  }

  /** The inner loop of `processPatchFile` over the date columns of one row
      (src/magic.js:224-236): refuses the row at its first date cell the
      lenient check rejects, otherwise returns it with its convertible cells
      replaced by dates. */
  method CheckRow(input: SheetRow, toDate: Cell -> Option<int>) returns (ok: bool, row: SheetRow)
    ensures ok <==> !RowRejected(input, toDate)
    ensures ok ==> row == CoerceRow(input, toDate)
  {
    ColumnsDistinct();
    row := input;
    var j := 0;
    while j < |Columns|
      invariant 0 <= j <= |Columns|
      invariant row == CoerceAll(input, Columns[..j], toDate)
      invariant forall k :: 0 <= k < j ==> !LenientRejects(Field(input, Columns[k]), toDate)
      invariant forall k :: j <= k < |Columns| ==> Field(row, Columns[k]) == Field(input, Columns[k])
    {
      var e := Columns[j];
      if LenientRejects(Field(row, e), toDate) {
        return false, row;
      }
      if Convertible(Field(row, e), toDate) {
        row := row[e := DateCell(toDate(Field(row, e)).value)];
      }
      assert Columns[..j + 1][..j] == Columns[..j];
      j := j + 1;
    }
    assert Columns[..j] == Columns;
    ok := true;
  }

  /** The validation loop of `processPatchFile` (src/magic.js:223-241): no
      patch set as soon as one row holds a date cell the lenient check refuses;
      otherwise every row, its convertible cells replaced by dates, keyed by
      `id`. */
  method ValidateLenient(rows: seq<SheetRow>, toDate: Cell -> Option<int>) returns (r: Option<PatchSet>)
    ensures r.None? <==> exists i :: 0 <= i < |rows| && RowRejected(rows[i], toDate)
    ensures r.Some? ==> r.value == Keyed(CoerceRows(rows, toDate))
  {
    var patchData: PatchSet := map[];
    ghost var done: seq<SheetRow> := [];
    var i := 0;
    while i < |rows|
      invariant 0 <= i <= |rows|
      invariant |done| == i && forall k :: 0 <= k < i ==> done[k] == CoerceRow(rows[k], toDate)
      invariant patchData == Keyed(done)
      invariant forall k :: 0 <= k < i ==> !RowRejected(rows[k], toDate)
    {
      var ok, row := CheckRow(rows[i], toDate);
      if !ok {
        return None;
      }
      assert (done + [row])[..|done + [row]| - 1] == done;
      patchData := patchData[Field(row, "id") := row];
      done := done + [row];
      i := i + 1;
    }
    assert done == CoerceRows(rows, toDate);
    return Some(patchData);
  }

  /** After coercion, a row the lenient check accepts holds a date or a falsy
      value in every date column; every other field is as it was. */
  lemma {:induction false} CoerceAllEffect(row: SheetRow, cols: seq<string>, toDate: Cell -> Option<int>)
    requires forall k :: 0 <= k < |cols| ==> !LenientRejects(Field(row, cols[k]), toDate)
    ensures forall col :: col !in cols ==> Field(CoerceAll(row, cols, toDate), col) == Field(row, col)
    ensures forall k :: 0 <= k < |cols| ==>
      var c := Field(CoerceAll(row, cols, toDate), cols[k]);
      c.DateCell? || !Truthy(c)
  {
    if |cols| > 0 {
      var init := cols[..|cols| - 1];
      CoerceAllEffect(row, init, toDate);
      var prev := CoerceAll(row, init, toDate);
      var last := cols[|cols| - 1];
      forall col | col !in cols
        ensures Field(CoerceAll(row, cols, toDate), col) == Field(row, col)
      {
        assert col !in init;
      }
      forall k | 0 <= k < |cols|
        ensures var c := Field(CoerceAll(row, cols, toDate), cols[k]); c.DateCell? || !Truthy(c)
      {
        if cols[k] != last {
          assert k < |cols| - 1 && cols[k] == init[k];
        } else if last !in init {
          assert Field(prev, last) == Field(row, last);
        } else {
          var k2 :| 0 <= k2 < |init| && init[k2] == last;
        }
      }
    }
  }

  /** What a successful lenient validation hands on (src/magic.js:225-238):
      each row has a date or a falsy value in all six date columns, and every
      other column (the `id`, the `name`) as in the sheet. */
  lemma AcceptedRowsHoldDates(row: SheetRow, toDate: Cell -> Option<int>)
    requires !RowRejected(row, toDate)
    ensures forall k :: 0 <= k < |Columns| ==>
      Field(CoerceRow(row, toDate), Columns[k]).DateCell? || !Truthy(Field(CoerceRow(row, toDate), Columns[k]))
    ensures forall col :: col !in Columns ==> Field(CoerceRow(row, toDate), col) == Field(row, col)
  {
    CoerceAllEffect(row, Columns, toDate);
  }

  /** Row i is the last one with its id. */
  predicate LastWithId(rows: seq<SheetRow>, i: int)
    requires 0 <= i < |rows|
  {
    forall j :: i < j < |rows| ==> Field(rows[j], "id") != Field(rows[i], "id")
  }

  /** There is an entry in the patch set exactly for the ids that occur. */
  lemma {:induction false} KeyedDomain(rows: seq<SheetRow>)
    ensures forall key :: key in Keyed(rows) <==> exists i :: 0 <= i < |rows| && Field(rows[i], "id") == key
  {
    if |rows| > 0 {
      var init := rows[..|rows| - 1];
      KeyedDomain(init);
      forall key | key in Keyed(rows)
        ensures exists i :: 0 <= i < |rows| && Field(rows[i], "id") == key
      {
        if key != Field(rows[|rows| - 1], "id") {
          assert key in Keyed(init);
          var i :| 0 <= i < |init| && Field(init[i], "id") == key;
          assert rows[i] == init[i];
        }
      }
      forall key | exists i :: 0 <= i < |rows| && Field(rows[i], "id") == key
        ensures key in Keyed(rows)
      {
        var i :| 0 <= i < |rows| && Field(rows[i], "id") == key;
        if i < |rows| - 1 {
          assert init[i] == rows[i];
        }
      }
    }
  }

  /** `patchData.get(id)` is the last row with that id. */
  lemma {:induction false} KeyedLast(rows: seq<SheetRow>, i: int)
    requires 0 <= i < |rows| && LastWithId(rows, i)
    ensures Field(rows[i], "id") in Keyed(rows) && Keyed(rows)[Field(rows[i], "id")] == rows[i]
  {
    if i < |rows| - 1 {
      var init := rows[..|rows| - 1];
      assert rows[i] == init[i];
      assert forall j :: i < j < |init| ==> init[j] == rows[j];
      KeyedLast(init, i);
    }
  }

  // ----------------------------------------------------------- strict (main.js)

  /** main.js:120: a date cell must be a date or absent. */
  predicate StrictRejects(c: Cell) {
    !(c.DateCell? || c.Absent?)
  }

  predicate RowRejectedStrictly(row: SheetRow) {
    exists k :: 0 <= k < |Columns| && StrictRejects(Field(row, Columns[k]))
  }

  /** The validation of main.js:119-126: the run stops at the first row with a
      date column holding anything but a date (an empty text, a number, a text
      that would parse); otherwise every row as it is, keyed by `id`. */
  method ValidateStrict(rows: seq<SheetRow>) returns (r: Option<PatchSet>)
    ensures r.None? <==> exists i :: 0 <= i < |rows| && RowRejectedStrictly(rows[i])
    ensures r.Some? ==> r.value == Keyed(rows)
  {
    var patchData: PatchSet := map[];
    var i := 0;
    while i < |rows|
      invariant 0 <= i <= |rows|
      invariant patchData == Keyed(rows[..i])
      invariant forall k :: 0 <= k < i ==> !RowRejectedStrictly(rows[k])
    {
      var row := rows[i];
      var j := 0;
      while j < |Columns|
        invariant 0 <= j <= |Columns|
        invariant forall k :: 0 <= k < j ==> !StrictRejects(Field(row, Columns[k]))
      {
        if StrictRejects(Field(row, Columns[j])) {
          return None;
        }
        j := j + 1;
      }
      assert rows[..i + 1][..i] == rows[..i];
      patchData := patchData[Field(row, "id") := row];
      i := i + 1;
    }
    assert rows[..i] == rows;
    return Some(patchData);
  }

  /** The strict check is the narrower one: a sheet it accepts is accepted by
      the lenient check too, and gives the same patch set there. */
  lemma StrictWithinLenient(rows: seq<SheetRow>, toDate: Cell -> Option<int>)
    requires forall i :: 0 <= i < |rows| ==> !RowRejectedStrictly(rows[i])
    ensures forall i :: 0 <= i < |rows| ==> !RowRejected(rows[i], toDate)
    ensures CoerceRows(rows, toDate) == rows
  {
    forall i | 0 <= i < |rows|
      ensures CoerceRow(rows[i], toDate) == rows[i]
    {
      CoerceAllUnchanged(rows[i], Columns, toDate);
    }
  }

  lemma {:induction false} CoerceAllUnchanged(row: SheetRow, cols: seq<string>, toDate: Cell -> Option<int>)
    requires forall k :: 0 <= k < |cols| ==> !Convertible(Field(row, cols[k]), toDate)
    ensures CoerceAll(row, cols, toDate) == row
  {
    if |cols| > 0 {
      CoerceAllUnchanged(row, cols[..|cols| - 1], toDate);
    }
  }
}
