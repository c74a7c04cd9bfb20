/**
  What the mapper promises, stated over the specification in module ExcelMapper:
  column letters, value coercion, shared-string lookup, which fields a row writes, and
  how many records the workbook yields and in what order.
*/
module ExcelMapperProperties {
  import opened Wrappers
  import opened Int32Text
  import opened ExcelMapper

  // ----- column letters -----

  /** Extracting letters commutes with concatenation, so it keeps the letters' order. */
  lemma {:induction false} ColumnNameAppend(a: string, b: string)
    ensures ColumnName(a + b) == ColumnName(a) + ColumnName(b)
  {
    if a != [] {
      assert (a + b)[1..] == a[1..] + b;
      ColumnNameAppend(a[1..], b);
    } else {
      assert a + b == b;
    }
  }

  /** A string of letters A-Z is its own column name. */
  lemma {:induction false} ColumnNameKeepsLetters(s: string)
    requires forall i :: 0 <= i < |s| ==> IsColumnLetter(s[i])
    ensures ColumnName(s) == s
  {
    if s != [] {
      ColumnNameKeepsLetters(s[1..]);
    }
  }

  /** A string with no letter A-Z has an empty column name: digits, lower case and the rest are dropped. */
  lemma {:induction false} ColumnNameDropsOthers(s: string)
    requires forall i :: 0 <= i < |s| ==> !IsColumnLetter(s[i])
    ensures ColumnName(s) == []
  {
    if s != [] {
      ColumnNameDropsOthers(s[1..]);
    }
  }

  /** The column name of a reference "letters then row number" is exactly the letters. */
  lemma ColumnNameOfReference(letters: string, rowNumber: string)
    requires forall i :: 0 <= i < |letters| ==> IsColumnLetter(letters[i])
    requires AllDigits(rowNumber)
    ensures ColumnName(letters + rowNumber) == letters
  {
    ColumnNameAppend(letters, rowNumber);
    ColumnNameKeepsLetters(letters);
    ColumnNameDropsOthers(rowNumber);
  }

  /** Extracting the letters twice is the same as once. */
  lemma ColumnNameIdempotent(reference: string)
    ensures ColumnName(ColumnName(reference)) == ColumnName(reference)
  {
    ColumnNameKeepsLetters(ColumnName(reference));
  }

  /** Each letter A-Z occurs as often in the column name as in the reference; nothing else occurs. */
  lemma {:induction false} ColumnNameCounts(reference: string, c: char)
    ensures multiset(ColumnName(reference))[c] == if IsColumnLetter(c) then multiset(reference)[c] else 0
  {
    if reference != [] {
      ColumnNameCounts(reference[1..], c);
      assert reference == [reference[0]] + reference[1..];
    }
  }

  lemma ColumnNameExamples()
    ensures ColumnName("A1") == "A"
    ensures ColumnName("AB23") == "AB"
    ensures ColumnName("Z100") == "Z"
    ensures ColumnName("ab12") == ""
  {
    assert ColumnName("A1") == "A" by {
      assert "A1"[1..][1..] == [];
    }
    assert ColumnName("AB23") == "AB" by {
      ColumnNameDropsOthers("23");
      assert "AB23"[1..][1..] == "23";
    }
    assert ColumnName("Z100") == "Z" by {
      ColumnNameDropsOthers("100");
      assert "Z100"[1..] == "100";
    }
    assert ColumnName("ab12") == "" by {
      ColumnNameDropsOthers("ab12");
    }
  }

  // ----- field resolution -----

  /** Once some field matches the counter by index, the cell's letters play no part. */
  lemma IndexMatchIgnoresName(schema: Schema, column: nat, name1: string, name2: string, f: nat)
    requires f < |schema| && MatchesIndex(schema[f], column)
    ensures ResolveField(schema, column, name1) == ResolveField(schema, column, name2)
  {
    var r1, r2 := ResolveField(schema, column, name1), ResolveField(schema, column, name2);
    assert r1.value <= r2.value;
    assert r2.value <= r1.value;
  }

  // ----- value coercion -----

  /** Null, and a value already of the target type, come back unchanged. */
  lemma ConvertKeepsConforming(v: Value, t: FieldType)
    requires v.Null? || IsInstanceOfType(v, t)
    ensures ConvertValue(v, t) == v
  {
  }

  /** For an `int` target, a string that parses becomes that int. */
  lemma ConvertParsesInt(s: string, n: int)
    requires ParseInt32(s) == Some(n)
    ensures ConvertValue(Str(s), IntType) == Int(n)
  {
  }

  /** Every other value comes back as it was: a target other than `int`, or text that does not parse. */
  lemma ConvertFallsBack(v: Value, t: FieldType)
    requires t != IntType || ParseInt32(ToText(v)).None?
    ensures ConvertValue(v, t) == v
  {
  }

  /** A value that conversion changes ends up of the target type. */
  lemma ConvertChangedConforms(v: Value, t: FieldType)
    requires ConvertValue(v, t) != v
    ensures IsInstanceOfType(ConvertValue(v, t), t)
  {
  }

  /** Converting twice gives what converting once gives. */
  lemma ConvertIdempotent(v: Value, t: FieldType)
    ensures ConvertValue(ConvertValue(v, t), t) == ConvertValue(v, t)
  {
    if ConvertValue(v, t) != v {
      ConvertChangedConforms(v, t);
    }
  }

  /** The text of a 32-bit integer converts back to that integer in an `int` field. */
  lemma ConvertIntText(n: int)
    requires MinInt32 <= n <= MaxInt32
    ensures ConvertValue(Str(IntToText(n)), IntType) == Int(n)
  {
    ParseIntToText(n);
  }

  // ----- cell values -----

  /** A shared-string cell whose text parses to a valid index yields the table item at that index. */
  lemma SharedStringLookup(cell: Cell, table: SharedStringTable, index: int)
    requires cell.dataType == Some(SharedString) && ParseInt32(cell.innerText) == Some(index)
    requires 0 <= index < |table|
    ensures GetCellValue(cell, table) == Ok(if table[index].Some? then Str(table[index].value) else Null)
  {
  }

  /** A shared-string cell whose text parses to a negative index, or one past the table's end, aborts with it. */
  lemma SharedStringPastEnd(cell: Cell, table: SharedStringTable, index: int)
    requires cell.dataType == Some(SharedString) && ParseInt32(cell.innerText) == Some(index)
    requires index < 0 || |table| <= index
    ensures GetCellValue(cell, table) == Err(SharedStringIndexOutOfRange(index))
  {
  }

  /** The item a shared-string cell refers to by the text of a valid index is that item. */
  lemma SharedStringOfIndexText(cell: Cell, table: SharedStringTable, index: nat)
    requires cell.dataType == Some(SharedString) && cell.innerText == IntToText(index)
    requires index < |table| && index <= MaxInt32
    ensures GetCellValue(cell, table) == Ok(if table[index].Some? then Str(table[index].value) else Null)
  {
    ParseIntToText(index);
  }

  // ----- storing a value -----

  /**
    A plain cell feeding an `int` property stores the int its text denotes; text that does
    not parse is kept as a string by `ConvertValue` and then rejected by `SetValue`.
  */
  lemma PlainTextIntoInt(cell: Cell, table: SharedStringTable)
    requires cell.dataType != Some(SharedString)
    ensures ParseInt32(cell.innerText).Some? ==>
      StoredValue(cell, table, IntType) == Ok(Int(ParseInt32(cell.innerText).value))
    ensures ParseInt32(cell.innerText).None? ==>
      StoredValue(cell, table, IntType) == Err(ValueNotAssignable(Str(cell.innerText), IntType))
  {
    assert ToText(Str(cell.innerText)) == cell.innerText;
  }

  /** A plain cell feeding a `string` property stores its text unchanged. */
  lemma PlainTextIntoString(cell: Cell, table: SharedStringTable)
    requires cell.dataType != Some(SharedString)
    ensures StoredValue(cell, table, StringType) == Ok(Str(cell.innerText))
  {
  }

  /** A shared-string item with no text stores 0 in an `int` property and null in any other. */
  lemma NullItemStoresDefault(cell: Cell, table: SharedStringTable, t: FieldType)
    requires GetCellValue(cell, table) == Ok(Null)
    ensures StoredValue(cell, table, t) == Ok(if t == IntType then Int(0) else Null)
  {
  }

  /**
    A cell never hands `SetValue` an int for a property that is not an `int`: it reads a
    string or null, and `ConvertValue` makes ints only for `int` properties.
  */
  lemma NoIntIntoOther(cell: Cell, table: SharedStringTable, t: FieldType)
    requires t != IntType
    ensures GetCellValue(cell, table).Ok? ==> !ConvertValue(GetCellValue(cell, table).value, t).Int?
    ensures StoredValue(cell, table, t).Ok? ==> !StoredValue(cell, table, t).value.Int?
  {
  }

  // ----- what a row writes -----

  /** The field cell number `column` writes: the one it resolves to, unless that one is ignored. */
  function WrittenField(schema: Schema, column: int, cell: Cell): (r: Option<nat>)
    ensures r.Some? ==> r.value < |schema| && !IsIgnored(schema[r.value])
  {
    match ResolveField(schema, column, ColumnName(cell.reference))
    case None => None
    case Some(f) => if IsIgnored(schema[f]) then None else Some(f)
  }

  /**
    The exception cell number `column` raises: none unless it writes a field and its value
    cannot be stored there.
  */
  function CellError(schema: Schema, table: SharedStringTable, column: int, cell: Cell): (r: Option<MapError>)
    ensures r.Some? ==> WrittenField(schema, column, cell).Some?
  {
    match WrittenField(schema, column, cell)
    case None => None
    case Some(f) =>
      var stored := StoredValue(cell, table, schema[f].fieldType);
      if stored.Err? then Some(stored.error) else None
  }

  /**
    One cell changes at most the field it writes, sets that field to the value it stores,
    and fails exactly when it raises.
  */
  lemma ApplyCellEffect(schema: Schema, table: SharedStringTable, rec: Record, column: int, cell: Cell)
    requires |rec| == |schema|
    ensures WrittenField(schema, column, cell).None? ==> ApplyCell(schema, table, rec, column, cell) == Ok(rec)
    ensures CellError(schema, table, column, cell).Some? ==>
      ApplyCell(schema, table, rec, column, cell) == Err(CellError(schema, table, column, cell).value)
    ensures WrittenField(schema, column, cell).Some? && CellError(schema, table, column, cell).None? ==>
      var f := WrittenField(schema, column, cell).value;
      ApplyCell(schema, table, rec, column, cell) == Ok(rec[f := StoredValue(cell, table, schema[f].fieldType).value])
  {
  }

  /** A field that no cell of the row writes keeps its initial value. */
  lemma {:induction false} UnwrittenFieldKeepsInitial(
    schema: Schema, table: SharedStringTable, cells: Row, rec: Record, f: nat)
    requires MapCells(schema, table, cells) == Ok(rec)
    requires f < |schema|
    requires forall k :: 0 <= k < |cells| ==> WrittenField(schema, k, cells[k]) != Some(f)
    ensures rec[f] == schema[f].initial
  {
    if cells != [] {
      var init := cells[..|cells| - 1];
      var last := |cells| - 1;
      match MapCells(schema, table, init)
      case Ok(prev) =>
        assert forall k :: 0 <= k < |init| ==> init[k] == cells[k];
        UnwrittenFieldKeepsInitial(schema, table, init, prev, f);
        ApplyCellEffect(schema, table, prev, last, cells[last]);
    }
  }

  /** An ignored field is never written: it keeps its initial value whatever the row holds. */
  lemma IgnoredFieldNeverWritten(schema: Schema, table: SharedStringTable, cells: Row, rec: Record, f: nat)
    requires MapCells(schema, table, cells) == Ok(rec)
    requires f < |schema| && IsIgnored(schema[f])
    ensures rec[f] == schema[f].initial
  {
    UnwrittenFieldKeepsInitial(schema, table, cells, rec, f);
  }

  /**
    A field holds the value stored by the last cell that writes it: cells after that one
    do not touch it.
  */
  lemma {:induction false} LastWriterWins(
    schema: Schema, table: SharedStringTable, cells: Row, rec: Record, k: nat, f: nat)
    requires MapCells(schema, table, cells) == Ok(rec)
    requires k < |cells| && WrittenField(schema, k, cells[k]) == Some(f)
    requires forall j :: k < j < |cells| ==> WrittenField(schema, j, cells[j]) != Some(f)
    ensures StoredValue(cells[k], table, schema[f].fieldType) == Ok(rec[f])
  {
    var init := cells[..|cells| - 1];
    var last := |cells| - 1;
    if k == last {
      LastCellWrites(schema, table, cells, f);
    } else {
      LastCellKeeps(schema, table, cells, f);
      assert init[k] == cells[k];
      assert forall j :: k < j < |init| ==> init[j] == cells[j];
      LastWriterWins(schema, table, init, MapCells(schema, table, init).value, k, f);
    }
  }

  /** The last cell of a row that maps leaves the field it writes holding the value it stores. */
  lemma LastCellWrites(schema: Schema, table: SharedStringTable, cells: Row, f: nat)
    requires cells != [] && MapCells(schema, table, cells).Ok?
    requires WrittenField(schema, |cells| - 1, cells[|cells| - 1]) == Some(f)
    ensures StoredValue(cells[|cells| - 1], table, schema[f].fieldType) == Ok(MapCells(schema, table, cells).value[f])
  {
    MappedRowPrefix(schema, table, cells);
    var prev := MapCells(schema, table, cells[..|cells| - 1]).value;
    ApplyCellEffect(schema, table, prev, |cells| - 1, cells[|cells| - 1]);
  }

  /** The last cell of a row that maps leaves every field it does not write as the other cells left it. */
  lemma LastCellKeeps(schema: Schema, table: SharedStringTable, cells: Row, f: nat)
    requires cells != [] && MapCells(schema, table, cells).Ok? && f < |schema|
    requires WrittenField(schema, |cells| - 1, cells[|cells| - 1]) != Some(f)
    ensures MapCells(schema, table, cells[..|cells| - 1]).Ok?
    ensures MapCells(schema, table, cells).value[f] == MapCells(schema, table, cells[..|cells| - 1]).value[f]
  {
    MappedRowPrefix(schema, table, cells);
    var prev := MapCells(schema, table, cells[..|cells| - 1]).value;
    ApplyCellEffect(schema, table, prev, |cells| - 1, cells[|cells| - 1]);
  }

  /**
    The cell at zero-based position `ColumnIndex - 1` fills the first field declaring that
    index with the value it stores, when the field is not ignored and its attribute names
    no column.
  */
  lemma IndexedCellFillsField(schema: Schema, table: SharedStringTable, cells: Row, rec: Record, f: nat)
    requires MapCells(schema, table, cells) == Ok(rec)
    requires f < |schema| && !IsIgnored(schema[f])
    requires schema[f].column.Some? && schema[f].column.value.columnName.None?
    requires schema[f].column.value.columnIndex.Some?
    requires 0 <= UncheckedDecrement(schema[f].column.value.columnIndex.value) < |cells|
    requires var k := UncheckedDecrement(schema[f].column.value.columnIndex.value);
      forall g :: 0 <= g < f ==> !MatchesIndex(schema[g], k)
    ensures var k := UncheckedDecrement(schema[f].column.value.columnIndex.value);
      StoredValue(cells[k], table, schema[f].fieldType) == Ok(rec[f])
  {
    var k := UncheckedDecrement(schema[f].column.value.columnIndex.value);
    assert MatchesIndex(schema[f], k);
    var r := ResolveField(schema, k, ColumnName(cells[k].reference));
    assert f <= r.value;
    assert r.value <= f;
    forall j | k < j < |cells|
      ensures WrittenField(schema, j, cells[j]) != Some(f)
    {
      assert !MatchesIndex(schema[f], j) && !MatchesName(schema[f], ColumnName(cells[j].reference));
    }
    LastWriterWins(schema, table, cells, rec, k, f);
  }

  /** A row none of whose cells writes a field still yields one record, the default one. */
  lemma {:induction false} UnmatchedRowIsDefault(schema: Schema, table: SharedStringTable, cells: Row)
    requires forall k :: 0 <= k < |cells| ==> WrittenField(schema, k, cells[k]).None?
    ensures MapCells(schema, table, cells) == Ok(DefaultRecord(schema))
  {
    if cells != [] {
      var init := cells[..|cells| - 1];
      assert forall k :: 0 <= k < |init| ==> init[k] == cells[k];
      UnmatchedRowIsDefault(schema, table, init);
      ApplyCellEffect(schema, table, DefaultRecord(schema), |cells| - 1, cells[|cells| - 1]);
    }
  }

  /** A row none of whose cells raises maps to a record. */
  lemma {:induction false} RowMapsWhenNoCellFails(schema: Schema, table: SharedStringTable, cells: Row)
    requires forall k :: 0 <= k < |cells| ==> CellError(schema, table, k, cells[k]).None?
    ensures MapCells(schema, table, cells).Ok?
  {
    if cells != [] {
      var init := cells[..|cells| - 1];
      var last := |cells| - 1;
      assert forall k :: 0 <= k < |init| ==> init[k] == cells[k];
      RowMapsWhenNoCellFails(schema, table, init);
      ApplyCellEffect(schema, table, MapCells(schema, table, init).value, last, cells[last]);
    }
  }

  /** The row without its last cell maps when the row does, and the last cell completes its record. */
  lemma MappedRowPrefix(schema: Schema, table: SharedStringTable, cells: Row)
    requires cells != [] && MapCells(schema, table, cells).Ok?
    ensures MapCells(schema, table, cells[..|cells| - 1]).Ok?
    ensures MapCells(schema, table, cells)
      == ApplyCell(schema, table, MapCells(schema, table, cells[..|cells| - 1]).value, |cells| - 1, cells[|cells| - 1])
  {
  }

  /** The last cell of a row that maps does not raise. */
  lemma LastCellOfMappedRow(schema: Schema, table: SharedStringTable, cells: Row)
    requires cells != [] && MapCells(schema, table, cells).Ok?
    ensures CellError(schema, table, |cells| - 1, cells[|cells| - 1]).None?
  {
    MappedRowPrefix(schema, table, cells);
    var prev := MapCells(schema, table, cells[..|cells| - 1]).value;
    ApplyCellEffect(schema, table, prev, |cells| - 1, cells[|cells| - 1]);
  }

  /** No cell of a row that maps raises. */
  lemma {:induction false} MappedRowHasNoFailingCell(schema: Schema, table: SharedStringTable, cells: Row, k: nat)
    requires MapCells(schema, table, cells).Ok? && k < |cells|
    ensures CellError(schema, table, k, cells[k]).None?
  {
    if k == |cells| - 1 {
      LastCellOfMappedRow(schema, table, cells);
    } else {
      var init := cells[..|cells| - 1];
      MappedRowPrefix(schema, table, cells);
      MappedRowHasNoFailingCell(schema, table, init, k);
      assert init[k] == cells[k];
    }
  }

  /** A row maps exactly when none of its cells raises. */
  lemma MapCellsOkIffNoCellFails(schema: Schema, table: SharedStringTable, cells: Row)
    ensures MapCells(schema, table, cells).Ok? <==>
      forall k :: 0 <= k < |cells| ==> CellError(schema, table, k, cells[k]).None?
  {
    if MapCells(schema, table, cells).Ok? {
      forall k | 0 <= k < |cells|
        ensures CellError(schema, table, k, cells[k]).None?
      {
        MappedRowHasNoFailingCell(schema, table, cells, k);
      }
    } else if forall k :: 0 <= k < |cells| ==> CellError(schema, table, k, cells[k]).None? {
      RowMapsWhenNoCellFails(schema, table, cells);
    }
  }

  /** A failing row fails with the exception of its first cell that raises. */
  lemma {:induction false} RowErrorComesFromWrittenCell(schema: Schema, table: SharedStringTable, cells: Row, e: MapError)
    requires MapCells(schema, table, cells) == Err(e)
    ensures exists k :: (0 <= k < |cells| && CellError(schema, table, k, cells[k]) == Some(e) &&
      forall j :: 0 <= j < k ==> CellError(schema, table, j, cells[j]).None?)
  {
    var init := cells[..|cells| - 1];
    var last := |cells| - 1;
    assert forall k :: 0 <= k < |init| ==> init[k] == cells[k];
    match MapCells(schema, table, init)
    case Err(_) =>
      RowErrorComesFromWrittenCell(schema, table, init, e);
    case Ok(prev) =>
      MapCellsOkIffNoCellFails(schema, table, init);
      ApplyCellEffect(schema, table, prev, last, cells[last]);
  }

  /** Conversely, the first cell that raises aborts the row with its exception. */
  lemma RowFailsAtFirstFailingCell(schema: Schema, table: SharedStringTable, cells: Row, k: nat, e: MapError)
    requires k < |cells| && CellError(schema, table, k, cells[k]) == Some(e)
    requires forall j :: 0 <= j < k ==> CellError(schema, table, j, cells[j]).None?
    ensures MapCells(schema, table, cells) == Err(e)
  {
    var init := cells[..k];
    forall j | 0 <= j < |init|
      ensures CellError(schema, table, j, init[j]).None?
    {
      assert init[j] == cells[j];
    }
    RowMapsWhenNoCellFails(schema, table, init);
    var prev := MapCells(schema, table, init).value;
    MapCellsStep(schema, table, cells, k, prev);
    ApplyCellEffect(schema, table, prev, k, cells[k]);
    assert MapCells(schema, table, cells[..k + 1]) == Err(e);
    MapCellsErrorPersists(schema, table, cells, k + 1, e);
  }

  // ----- rows of a sheet -----

  /** Two mapping outcomes one after the other: the first error, else both record lists. */
  function Then(x: Result<seq<Record>, MapError>, y: Result<seq<Record>, MapError>): Result<seq<Record>, MapError> {
    if x.Err? then x else if y.Err? then y else Ok(x.value + y.value)
  }

  /** Mapping a concatenation of rows maps the first part, then the second. */
  lemma {:induction false} MapRowsAppend(schema: Schema, table: SharedStringTable, a: seq<Row>, b: seq<Row>)
    ensures MapRows(schema, table, a + b) == Then(MapRows(schema, table, a), MapRows(schema, table, b))
  {
    if b == [] {
      assert a + b == a;
      if MapRows(schema, table, a).Ok? {
        assert MapRows(schema, table, a).value + [] == MapRows(schema, table, a).value;
      }
    } else {
      var b' := b[..|b| - 1];
      var last := b[|b| - 1];
      assert (a + b)[..|a + b| - 1] == a + b';
      assert (a + b)[|a + b| - 1] == last;
      MapRowsAppend(schema, table, a, b');
      var x, y := MapRows(schema, table, a), MapRows(schema, table, b');
      if x.Ok? && y.Ok? && MapCells(schema, table, last).Ok? {
        assert x.value + (y.value + [MapCells(schema, table, last).value])
            == (x.value + y.value) + [MapCells(schema, table, last).value];
      }
    }
  }

  /** When the rows map, there is exactly one record per row, each that row's record, in row order. */
  lemma {:induction false} MapRowsOneRecordPerRow(schema: Schema, table: SharedStringTable, rows: seq<Row>, recs: seq<Record>)
    requires MapRows(schema, table, rows) == Ok(recs)
    ensures |recs| == |rows|
    ensures forall k :: 0 <= k < |rows| ==> MapCells(schema, table, rows[k]) == Ok(recs[k])
  {
    if rows != [] {
      var init := rows[..|rows| - 1];
      var prev := MapRows(schema, table, init).value;
      MapRowsOneRecordPerRow(schema, table, init, prev);
      assert recs == prev + [recs[|recs| - 1]];
    }
  }

  /** The rows map exactly when every row maps. */
  lemma {:induction false} MapRowsOkIffEveryRow(schema: Schema, table: SharedStringTable, rows: seq<Row>)
    ensures MapRows(schema, table, rows).Ok? <==> forall k :: 0 <= k < |rows| ==> MapCells(schema, table, rows[k]).Ok?
  {
    if rows != [] {
      var init := rows[..|rows| - 1];
      MapRowsOkIffEveryRow(schema, table, init);
      assert forall k :: 0 <= k < |init| ==> init[k] == rows[k];
    }
  }

  /** When the rows fail, the error is that of the first failing row. */
  lemma {:induction false} MapRowsFirstError(schema: Schema, table: SharedStringTable, rows: seq<Row>, e: MapError)
    requires MapRows(schema, table, rows) == Err(e)
    ensures exists k :: (0 <= k < |rows| && MapCells(schema, table, rows[k]) == Err(e) &&
      forall j :: 0 <= j < k ==> MapCells(schema, table, rows[j]).Ok?)
  {
    var init := rows[..|rows| - 1];
    assert forall k :: 0 <= k < |init| ==> init[k] == rows[k];
    match MapRows(schema, table, init)
    case Err(_) =>
      MapRowsFirstError(schema, table, init, e);
    case Ok(_) =>
      MapRowsOkIffEveryRow(schema, table, init);
  }

  // ----- the workbook -----

  /** The rows `MapExcel` visits: each sheet's rows from `startRow` on, sheet after sheet. */
  function SelectedRows(sheets: seq<Sheet>, startRow: int32): seq<Row> {
    if sheets == [] then []
    else SelectedRows(sheets[..|sheets| - 1], startRow) + Skip(sheets[|sheets| - 1], UncheckedDecrement(startRow))
  }

  /**
    How many rows of a sheet `MapExcel` visits: `max(0, rows - max(0, startRow - 1))`, with
    `startRow - 1` wrapping to `int.MaxValue` at `int.MinValue`.
  */
  function RowsFrom(sheet: Sheet, startRow: int32): nat {
    var skipped := if startRow as int == MinInt32 then MaxInt32 else if startRow > 1 then startRow as int - 1 else 0;
    if |sheet| > skipped then |sheet| - skipped else 0
  }

  function TotalRowsFrom(sheets: seq<Sheet>, startRow: int32): nat {
    if sheets == [] then 0
    else TotalRowsFrom(sheets[..|sheets| - 1], startRow) + RowsFrom(sheets[|sheets| - 1], startRow)
  }

  /** All rows of all sheets, sheet after sheet. */
  function AllRows(sheets: seq<Sheet>): seq<Row> {
    if sheets == [] then [] else AllRows(sheets[..|sheets| - 1]) + sheets[|sheets| - 1]
  }

  lemma {:induction false} SelectedRowsCount(sheets: seq<Sheet>, startRow: int32)
    ensures |SelectedRows(sheets, startRow)| == TotalRowsFrom(sheets, startRow)
  {
    if sheets != [] {
      SelectedRowsCount(sheets[..|sheets| - 1], startRow);
    }
  }

  /** With `startRow` at most 1 (but above `int.MinValue`) nothing is skipped: every row of every sheet is mapped. */
  lemma {:induction false} StartRowOneSelectsAll(sheets: seq<Sheet>, startRow: int32)
    requires MinInt32 < startRow as int <= 1
    ensures SelectedRows(sheets, startRow) == AllRows(sheets)
  {
    if sheets != [] {
      StartRowOneSelectsAll(sheets[..|sheets| - 1], startRow);
    }
  }

  /**
    With `startRow` at `int.MinValue`, `startRow - 1` wraps to `int.MaxValue` and no row is
    visited, in any sheet of fewer than 2^31 rows.
  */
  lemma {:induction false} LowestStartRowSelectsNone(sheets: seq<Sheet>)
    requires forall s :: 0 <= s < |sheets| ==> |sheets[s]| <= MaxInt32
    ensures SelectedRows(sheets, MinInt32 as int32) == []
  {
    if sheets != [] {
      LowestStartRowSelectsNone(sheets[..|sheets| - 1]);
    }
  }

  /** Mapping the workbook is mapping its selected rows in one run. */
  lemma {:induction false} MapSheetsMapsSelectedRows(schema: Schema, table: SharedStringTable, sheets: seq<Sheet>, startRow: int32)
    ensures MapSheets(schema, table, sheets, startRow) == MapRows(schema, table, SelectedRows(sheets, startRow))
  {
    if sheets != [] {
      var init := sheets[..|sheets| - 1];
      MapSheetsMapsSelectedRows(schema, table, init, startRow);
      MapRowsAppend(schema, table, SelectedRows(init, startRow), Skip(sheets[|sheets| - 1], UncheckedDecrement(startRow)));
    }
  }

  /**
    `MapExcel` yields one record per row at or after `startRow`, sheet after sheet and row
    after row, each the record of its row; it fails exactly when some such row fails, and
    then with the error of the first one.
  */
  lemma MapWorkbookRecords(schema: Schema, book: Workbook, startRow: int32)
    ensures var rows := SelectedRows(book.sheets, startRow);
      MapWorkbook(schema, book, startRow).Ok? <==>
        forall k :: 0 <= k < |rows| ==> MapCells(schema, book.sharedStrings, rows[k]).Ok?
    ensures var rows := SelectedRows(book.sheets, startRow);
      MapWorkbook(schema, book, startRow).Ok? ==>
        && |MapWorkbook(schema, book, startRow).value| == |rows|
        && |MapWorkbook(schema, book, startRow).value| == TotalRowsFrom(book.sheets, startRow)
        && forall k :: 0 <= k < |rows| ==>
             MapCells(schema, book.sharedStrings, rows[k]) == Ok(MapWorkbook(schema, book, startRow).value[k])
    ensures var rows := SelectedRows(book.sheets, startRow);
      MapWorkbook(schema, book, startRow).Err? ==>
        exists k :: (0 <= k < |rows| && MapCells(schema, book.sharedStrings, rows[k]) == Err(MapWorkbook(schema, book, startRow).error) &&
          forall j :: 0 <= j < k ==> MapCells(schema, book.sharedStrings, rows[j]).Ok?)
  {
    var table := book.sharedStrings;
    var rows := SelectedRows(book.sheets, startRow);
    MapSheetsMapsSelectedRows(schema, table, book.sheets, startRow);
    SelectedRowsCount(book.sheets, startRow);
    MapRowsOkIffEveryRow(schema, table, rows);
    match MapRows(schema, table, rows)
    case Ok(recs) => MapRowsOneRecordPerRow(schema, table, rows, recs);
    case Err(e) => MapRowsFirstError(schema, table, rows, e);
  }

  /** `MapExcel` called with `startRow` = `int.MinValue` returns no record at all. */
  lemma LowestStartRowMapsNothing(schema: Schema, book: Workbook)
    requires forall s :: 0 <= s < |book.sheets| ==> |book.sheets[s]| <= MaxInt32
    ensures MapWorkbook(schema, book, MinInt32 as int32) == Ok([])
  {
    LowestStartRowSelectsNone(book.sheets);
    MapSheetsMapsSelectedRows(schema, book.sharedStrings, book.sheets, MinInt32 as int32);
  }
}
