/**
  The row-to-record mapper `ExcelMapper<T>`.

  A workbook is a sequence of sheets, a sheet a sequence of rows, a row a sequence of cells.
  The record type `T` is described by a schema: one `Field` per public instance property
  with a setter, in the order reflection lists them, each carrying the metadata of its
  attributes. `GetProperties()` also lists get-only, static and indexer properties; those
  are outside this schema (see README.md, "Left out"). A record is the
  sequence of the fields' values, in schema order, so a field is identified by its position.

  The pure helpers (`ColumnName`, `GetCellValue`, `ConvertValue`, `IsIgnored`, and the
  argument check of `PropertyInfo.SetValue`) are functions;
  `MapExcel` is the imperative row and cell loop, proved equal to the specification
  `MapWorkbook`, a left fold over sheets, rows and cells built from `ApplyCell`.
*/
module ExcelMapper {
  import opened Wrappers
  import opened Int32Text

  /** A property value as the mapper handles it: null, a string, or a boxed int. */
  datatype Value = Null | Str(s: string) | Int(i: int)

  /**
    A property's declared type, as far as `ConvertValue` and `SetValue` distinguish types.
    For any other type, `holdsText` and `holdsInt` say whether a string and a boxed `int` are
    instances of it: both for `object` and `IComparable`, only strings for `ICloneable`,
    neither for `DateTime` or `long`.
  */
  datatype FieldType =
    | IntType      // `int`: the only target that gets a conversion; its default is 0
    | StringType   // `string`
    | OtherType(name: string, holdsText: bool, holdsInt: bool)

  /** The `ExcelColumnAttribute` on a property: a 1-based column index and/or a column name. */
  datatype ColumnAttribute = ColumnAttribute(columnIndex: Option<int32>, columnName: Option<string>)

  /**
    One property of the record type. `column` is its `ExcelColumnAttribute` (or none),
    `ignore` the `Ignore` flag of its `IgnoreExcelColumnAttribute` (or none), and `initial`
    the value a freshly constructed record holds in it.
  */
  datatype Field = Field(
    name: string,
    fieldType: FieldType,
    column: Option<ColumnAttribute>,
    ignore: Option<bool>,
    initial: Value)

  type Schema = seq<Field>
  type Record = seq<Value>

  /** The `CellValues` data types a cell may declare. */
  datatype CellDataType = Boolean | Number | Error | SharedString | FormulaString | InlineString | Date

  /** A cell: its position reference (such as "C7"), its declared data type, and its inner text. */
  datatype Cell = Cell(reference: string, dataType: Option<CellDataType>, innerText: string)

  type Row = seq<Cell>
  type Sheet = seq<Row>

  /** The shared-string table: each item's text, which may be null. */
  type SharedStringTable = seq<Option<string>>

  datatype Workbook = Workbook(sheets: seq<Sheet>, sharedStrings: SharedStringTable)

  /** The exceptions a cell can raise; each one aborts the whole mapping call. */
  datatype MapError =
    | SharedStringIndexNotAnInteger(text: string)           // `int.Parse` fails
    | SharedStringIndexOutOfRange(index: int)               // `ElementAt` fails
    | ValueNotAssignable(value: Value, fieldType: FieldType)  // `SetValue` rejects the value

  // ----- column letters -----

  predicate IsColumnLetter(c: char) {
    'A' <= c <= 'Z'
  }

  /** `GetColumnNameFromCellReference`: the reference with every character outside A-Z removed. */
  function ColumnName(reference: string): (name: string)
    ensures |name| <= |reference|
    ensures forall i :: 0 <= i < |name| ==> IsColumnLetter(name[i])
  {
    if reference == [] then []
    else (if IsColumnLetter(reference[0]) then [reference[0]] else []) + ColumnName(reference[1..])
  }

  // ----- field resolution -----

  /** `FirstOrDefault`: the position of the first element of `xs` that satisfies `p`, if any. */
  function FirstMatch<T>(xs: seq<T>, p: T -> bool): (r: Option<nat>)
    ensures r.Some? ==> r.value < |xs| && p(xs[r.value])
    ensures r.Some? ==> forall j :: 0 <= j < r.value ==> !p(xs[j])
    ensures r.None? ==> forall j :: 0 <= j < |xs| ==> !p(xs[j])
  {
    if xs == [] then None
    else if p(xs[0]) then Some(0)
    else match FirstMatch(xs[1..], p)
      case None => None
      case Some(k) => Some(k + 1)
  }

  /**
    `x - 1` in unchecked 32-bit arithmetic (`ColumnIndex - 1`, `startRow - 1`): the 32-bit
    integer congruent to `x - 1` modulo 2^32, so `int.MinValue` wraps to `int.MaxValue`.
  */
  function UncheckedDecrement(x: int32): (r: int)
    ensures MinInt32 <= r <= MaxInt32
    ensures (r - (x as int - 1)) % 0x1_0000_0000 == 0
  {
    if x as int == MinInt32 then MaxInt32 else x as int - 1
  }

  /** The property's `ExcelColumnAttribute?.ColumnIndex - 1` equals the running column counter. */
  predicate MatchesIndex(f: Field, column: int): (r: bool)
    // the 1-based index is one past the counter, except where the subtraction wraps
    ensures r <==> (
      && f.column.Some? && f.column.value.columnIndex.Some?
      && var index := f.column.value.columnIndex.value as int;
         if index == MinInt32 then column == MaxInt32 else index == column + 1)
  {
    f.column.Some? && f.column.value.columnIndex.Some? && UncheckedDecrement(f.column.value.columnIndex.value) == column
  }

  /** The property has an `ExcelColumnAttribute` whose `ColumnName` equals the cell's letters. */
  predicate MatchesName(f: Field, name: string): (r: bool)
    // a property without the attribute, or whose attribute names no column, never matches
    ensures f.column.None? || f.column.value.columnName.None? ==> !r
    // the comparison is exact and case-sensitive: the attribute's name is the letters
    ensures r ==> f.column.Some? && f.column.value.columnName.Some? && f.column.value.columnName.value == name
  {
    f.column.Some? && f.column.value.columnName == Some(name)
  }

  /** The first property mapped to column `column` by index. */
  function FindByIndex(schema: Schema, column: int): (r: Option<nat>)
    ensures r.Some? ==> r.value < |schema| && MatchesIndex(schema[r.value], column)
    ensures r.Some? ==> forall j :: 0 <= j < r.value ==> !MatchesIndex(schema[j], column)
    ensures r.None? <==> forall j :: 0 <= j < |schema| ==> !MatchesIndex(schema[j], column)
  {
    FirstMatch(schema, f => MatchesIndex(f, column))
  }

  /** The first property mapped to column letters `name` by name. */
  function FindByName(schema: Schema, name: string): (r: Option<nat>)
    ensures r.Some? ==> r.value < |schema| && MatchesName(schema[r.value], name)
    ensures r.Some? ==> forall j :: 0 <= j < r.value ==> !MatchesName(schema[j], name)
    ensures r.None? <==> forall j :: 0 <= j < |schema| ==> !MatchesName(schema[j], name)
  {
    FirstMatch(schema, f => MatchesName(f, name))
  }

  /**
    The property a cell feeds: the first one whose index matches the counter; failing that,
    the first one whose name matches the letters; failing that, none.
  */
  function ResolveField(schema: Schema, column: int, name: string): (r: Option<nat>)
    ensures r.Some? ==> r.value < |schema|
    // index matching wins whenever some field matches by index
    ensures column >= 0 && (exists i :: 0 <= i < |schema| && MatchesIndex(schema[i], column)) ==>
      && r.Some?
      && MatchesIndex(schema[r.value], column)
      && forall j :: 0 <= j < r.value ==> !MatchesIndex(schema[j], column)
    // otherwise the first field matching by name, if there is one
    ensures column >= 0 && (forall i :: 0 <= i < |schema| ==> !MatchesIndex(schema[i], column)) ==>
      && (r.Some? <==> exists i :: 0 <= i < |schema| && MatchesName(schema[i], name))
      && (r.Some? ==> MatchesName(schema[r.value], name))
      && (r.Some? ==> forall j :: 0 <= j < r.value ==> !MatchesName(schema[j], name))
    ensures column < 0 ==> r.None?
  {
    var byIndex := if column >= 0 then FindByIndex(schema, column) else None;
    if byIndex.None? && column >= 0 then FindByName(schema, name) else byIndex
  }

  /** `IsPropertyIgnored`: the property carries an ignore attribute whose flag is set. */
  predicate IsIgnored(f: Field): (r: bool)
    // no attribute, or `Ignore = false`, leaves the property mapped
    ensures f.ignore.None? ==> !r
    ensures f.ignore == Some(false) ==> !r
    ensures f.ignore.Some? && f.ignore.value ==> r
  {
    f.ignore == Some(true)
  }

  // ----- cell values -----

  /**
    `GetCellValue`: a cell that is not a shared string yields its inner text; a shared-string
    cell's text is parsed as an index into the shared-string table and yields that item's
    text (null when the item has none).
  */
  function GetCellValue(cell: Cell, table: SharedStringTable): (r: Result<Value, MapError>)
    // a cell of any other type, or of none, yields its text as it stands
    ensures cell.dataType != Some(SharedString) ==> r == Ok(Str(cell.innerText))
    // a shared-string cell whose text is not an integer aborts
    ensures cell.dataType == Some(SharedString) && ParseInt32(cell.innerText).None? ==>
      r == Err(SharedStringIndexNotAnInteger(cell.innerText))
    // otherwise it yields the item at the parsed index, or aborts when there is none
    ensures cell.dataType == Some(SharedString) && ParseInt32(cell.innerText).Some? ==>
      var i := ParseInt32(cell.innerText).value;
      && (0 <= i < |table| ==> r == Ok(if table[i].Some? then Str(table[i].value) else Null))
      && (i < 0 || |table| <= i ==> r == Err(SharedStringIndexOutOfRange(i)))
  {
    if cell.dataType == Some(SharedString) then
      match ParseInt32(cell.innerText)
      case None => Err(SharedStringIndexNotAnInteger(cell.innerText))
      case Some(index) =>
        if 0 <= index < |table| then
          Ok(if table[index].Some? then Str(table[index].value) else Null)
        else Err(SharedStringIndexOutOfRange(index))
    else Ok(Str(cell.innerText))
  }

  // ----- value coercion -----

  /** `targetType.IsInstanceOfType(value)`. */
  predicate IsInstanceOfType(v: Value, t: FieldType): (r: bool)
    // null is an instance of no type
    ensures v.Null? ==> !r
    // `string` holds exactly the strings and `int` exactly the ints
    ensures t == StringType ==> (r <==> v.Str?)
    ensures t == IntType ==> (r <==> v.Int?)
  {
    match v
    case Null => false
    case Str(_) => t == StringType || (t.OtherType? && t.holdsText)
    case Int(_) => t == IntType || (t.OtherType? && t.holdsInt)
  }

  /** `value.ToString()` for a non-null value: a string is its own text, and an int's text parses back. */
  function ToText(v: Value): (r: string)
    ensures v.Str? ==> r == v.s
    ensures v.Int? && MinInt32 <= v.i <= MaxInt32 ==> ParseInt32(r) == Some(v.i)
  {
    match v
    case Null => ""
    case Str(s) => s
    case Int(i) =>
      var text := IntToText(i);
      assert MinInt32 <= i <= MaxInt32 ==> ParseInt32(text) == Some(i) by {
        if MinInt32 <= i <= MaxInt32 { ParseIntToText(i); }
      }
      text
  }

  /**
    `ConvertValue`: null and values already of the target type are kept; for an `int` target
    a value whose text parses becomes that int; anything else is kept as it was.
  */
  function ConvertValue(v: Value, t: FieldType): (r: Value)
    ensures r == v || (t == IntType && r.Int? && ParseInt32(ToText(v)) == Some(r.i))
    ensures r.Null? <==> v.Null?
  {
    if v.Null? || IsInstanceOfType(v, t) then v
    else if t == IntType then
      match ParseInt32(ToText(v))
      case Some(n) => Int(n)
      case None => v
    else v
  }

  /**
    `PropertyInfo.SetValue`: what the property holds once set to `v`. Null stores the type's
    default (0 for `int`); a value that is not an instance of the property's type throws.
    The check is stated only for the values a cell can produce: strings, null, and ints
    stored in an `int` property. Reflection's widening of a boxed `int` into a `long` or
    `double` property is not modelled, because `ConvertValue` never yields an int for a
    property that is not an `int` (`ExcelMapperProperties.NoIntIntoOther`).
  */
  function SetValue(v: Value, t: FieldType): (r: Result<Value, MapError>)
    ensures r.Ok? <==> v.Null? || IsInstanceOfType(v, t)
    ensures r.Ok? ==> r.value == v || (v.Null? && t == IntType && r.value == Int(0))
    ensures r.Err? ==> r.error == ValueNotAssignable(v, t)
  {
    if v.Null? then Ok(if t == IntType then Int(0) else Null)
    else if IsInstanceOfType(v, t) then Ok(v)
    else Err(ValueNotAssignable(v, t))
  }

  /**
    What a cell stores in a property of type `t`: its value read, converted and set, or the
    exception one of those steps raises.
  */
  function StoredValue(cell: Cell, table: SharedStringTable, t: FieldType): (r: Result<Value, MapError>)
    // whatever is stored is of the property's type, or null in a property that is not an `int`
    ensures r.Ok? ==> IsInstanceOfType(r.value, t) || (r.value.Null? && t != IntType)
    // a failure comes from reading the cell, or from setting a value conversion left alone
    ensures r.Err? ==> (GetCellValue(cell, table).Err? ||
      r.error == ValueNotAssignable(GetCellValue(cell, table).value, t))
  {
    match GetCellValue(cell, table)
    case Err(e) => Err(e)
    case Ok(v) => SetValue(ConvertValue(v, t), t)
  }

  // ----- specification of the mapping loop -----

  /** A freshly constructed record: every property holds its initial value. */
  function DefaultRecord(schema: Schema): (rec: Record)
    ensures |rec| == |schema|
    ensures forall f :: 0 <= f < |schema| ==> rec[f] == schema[f].initial
  {
    seq(|schema|, f requires 0 <= f < |schema| => schema[f].initial)
  }

  /** The effect of the cell at counter `column` on the record being built. */
  function ApplyCell(schema: Schema, table: SharedStringTable, rec: Record, column: int, cell: Cell)
    : (r: Result<Record, MapError>)
    requires |rec| == |schema|
    ensures r.Ok? ==> |r.value| == |schema|
  {
    match ResolveField(schema, column, ColumnName(cell.reference))
    case None => Ok(rec)
    case Some(f) =>
      if IsIgnored(schema[f]) then Ok(rec)
      else match StoredValue(cell, table, schema[f].fieldType)
        case Err(e) => Err(e)
        case Ok(v) => Ok(rec[f := v])
  }

  /** The record a row maps to: a default record, then each cell applied with counter 0, 1, 2, ... */
  function MapCells(schema: Schema, table: SharedStringTable, cells: Row): (r: Result<Record, MapError>)
    ensures r.Ok? ==> |r.value| == |schema|
  {
    if cells == [] then Ok(DefaultRecord(schema))
    else match MapCells(schema, table, cells[..|cells| - 1])
      case Err(e) => Err(e)
      case Ok(rec) => ApplyCell(schema, table, rec, |cells| - 1, cells[|cells| - 1])
  }

  /** The records of a sequence of rows, in order; the first failing row aborts. */
  function MapRows(schema: Schema, table: SharedStringTable, rows: seq<Row>): (r: Result<seq<Record>, MapError>)
  {
    if rows == [] then Ok([])
    else match MapRows(schema, table, rows[..|rows| - 1])
      case Err(e) => Err(e)
      case Ok(recs) =>
        match MapCells(schema, table, rows[|rows| - 1])
        case Err(e) => Err(e)
        case Ok(rec) => Ok(recs + [rec])
  }

  /** LINQ `Skip(count)`: drop the first `count` elements, or none when `count` is not positive. */
  function Skip<T>(xs: seq<T>, count: int): (r: seq<T>)
    ensures |r| == if count <= 0 then |xs| else if count >= |xs| then 0 else |xs| - count
    ensures r == xs[|xs| - |r|..]
  {
    if count <= 0 then xs else if count >= |xs| then [] else xs[count..]
  }

  /** The records of each sheet's rows from `startRow` on, sheet after sheet. */
  function MapSheets(schema: Schema, table: SharedStringTable, sheets: seq<Sheet>, startRow: int32)
    : (r: Result<seq<Record>, MapError>)
  {
    if sheets == [] then Ok([])
    else match MapSheets(schema, table, sheets[..|sheets| - 1], startRow)
      case Err(e) => Err(e)
      case Ok(recs) =>
        match MapRows(schema, table, Skip(sheets[|sheets| - 1], UncheckedDecrement(startRow)))
        case Err(e) => Err(e)
        case Ok(more) => Ok(recs + more)
  }

  /** What `MapExcel` returns for a workbook: its records, or the error that aborted it. */
  function MapWorkbook(schema: Schema, book: Workbook, startRow: int32): Result<seq<Record>, MapError> {
    MapSheets(schema, book.sharedStrings, book.sheets, startRow)
  }

  // ----- one more element: how each fold extends by one step -----

  lemma MapCellsStep(schema: Schema, table: SharedStringTable, cells: Row, j: nat, rec: Record)
    requires j < |cells|
    requires MapCells(schema, table, cells[..j]) == Ok(rec)
    ensures |rec| == |schema|
    ensures MapCells(schema, table, cells[..j + 1]) == ApplyCell(schema, table, rec, j, cells[j])
  {
    assert cells[..j + 1][..j] == cells[..j];
  }

  lemma MapRowsStep(schema: Schema, table: SharedStringTable, rows: seq<Row>, i: nat, recs: seq<Record>)
    requires i < |rows|
    requires MapRows(schema, table, rows[..i]) == Ok(recs)
    ensures MapCells(schema, table, rows[i]).Ok? ==>
      MapRows(schema, table, rows[..i + 1]) == Ok(recs + [MapCells(schema, table, rows[i]).value])
    ensures MapCells(schema, table, rows[i]).Err? ==>
      MapRows(schema, table, rows[..i + 1]) == Err(MapCells(schema, table, rows[i]).error)
  {
    assert rows[..i + 1][..i] == rows[..i];
  }

  lemma MapSheetsStep(schema: Schema, table: SharedStringTable, sheets: seq<Sheet>, startRow: int32, s: nat, recs: seq<Record>)
    requires s < |sheets|
    requires MapSheets(schema, table, sheets[..s], startRow) == Ok(recs)
    ensures var more := MapRows(schema, table, Skip(sheets[s], UncheckedDecrement(startRow)));
      more.Ok? ==> MapSheets(schema, table, sheets[..s + 1], startRow) == Ok(recs + more.value)
    ensures var more := MapRows(schema, table, Skip(sheets[s], UncheckedDecrement(startRow)));
      more.Err? ==> MapSheets(schema, table, sheets[..s + 1], startRow) == Err(more.error)
  {
    assert sheets[..s + 1][..s] == sheets[..s];
  }

  // ----- error propagation: once a prefix fails, the whole fails with the same error -----

  lemma {:induction false} MapCellsErrorPersists(schema: Schema, table: SharedStringTable, cells: Row, n: nat, e: MapError)
    requires n <= |cells|
    requires MapCells(schema, table, cells[..n]) == Err(e)
    ensures MapCells(schema, table, cells) == Err(e)
  {
    if n < |cells| {
      assert cells[..|cells| - 1][..n] == cells[..n];
      MapCellsErrorPersists(schema, table, cells[..|cells| - 1], n, e);
    } else {
      assert cells[..n] == cells;
    }
  }

  lemma {:induction false} MapRowsErrorPersists(schema: Schema, table: SharedStringTable, rows: seq<Row>, n: nat, e: MapError)
    requires n <= |rows|
    requires MapRows(schema, table, rows[..n]) == Err(e)
    ensures MapRows(schema, table, rows) == Err(e)
  {
    if n < |rows| {
      assert rows[..|rows| - 1][..n] == rows[..n];
      MapRowsErrorPersists(schema, table, rows[..|rows| - 1], n, e);
    } else {
      assert rows[..n] == rows;
    }
  }

  lemma {:induction false} MapSheetsErrorPersists(
    schema: Schema, table: SharedStringTable, sheets: seq<Sheet>, startRow: int32, n: nat, e: MapError)
    requires n <= |sheets|
    requires MapSheets(schema, table, sheets[..n], startRow) == Err(e)
    ensures MapSheets(schema, table, sheets, startRow) == Err(e)
  {
    if n < |sheets| {
      assert sheets[..|sheets| - 1][..n] == sheets[..n];
      MapSheetsErrorPersists(schema, table, sheets[..|sheets| - 1], startRow, n, e);
    } else {
      assert sheets[..n] == sheets;
    }
  }

  // ----- the mapping loop -----

  /**
    The body of `MapExcel`'s row loop: build a default record and feed it the row's cells,
    with a column counter that starts at 0 and goes up by one per cell, matched or not.
  */
  method MapRow(schema: Schema, table: SharedStringTable, row: Row) returns (r: Result<Record, MapError>)
    ensures r == MapCells(schema, table, row)
  {
    var mappedObject := DefaultRecord(schema);
    var columnIndex := 0;
    for j := 0 to |row|
      invariant columnIndex == j
      invariant MapCells(schema, table, row[..j]) == Ok(mappedObject)
    {
      MapCellsStep(schema, table, row, j, mappedObject);
      var cell := row[j];
      var columnName := ColumnName(cell.reference);
      var property: Option<nat> := None;
      if columnIndex >= 0 {
        property := FindByIndex(schema, columnIndex);
      }
      if property.None? && columnIndex >= 0 {
        property := FindByName(schema, columnName);
      }
      assert property == ResolveField(schema, j, columnName);
      if property.Some? {
        if !IsIgnored(schema[property.value]) {
          var cellValue := GetCellValue(cell, table);
          if cellValue.Err? {
            MapCellsErrorPersists(schema, table, row, j + 1, cellValue.error);
            return Err(cellValue.error);
          }
          var convertedValue := ConvertValue(cellValue.value, schema[property.value].fieldType);
          var stored := SetValue(convertedValue, schema[property.value].fieldType);
          if stored.Err? {
            MapCellsErrorPersists(schema, table, row, j + 1, stored.error);
            return Err(stored.error);
          }
          mappedObject := mappedObject[property.value := stored.value];
        }
      }
      columnIndex := columnIndex + 1;
    }
    assert row[..|row|] == row;
    return Ok(mappedObject);
  }

  /**
    The body of `MapExcel`'s sheet loop: map each of the given rows to a record, in order.
    A failing row aborts.
  */
  method MapSheetRows(schema: Schema, table: SharedStringTable, rows: seq<Row>) returns (r: Result<seq<Record>, MapError>)
    ensures r == MapRows(schema, table, rows)
  {
    var mapped: seq<Record> := [];
    for i := 0 to |rows|
      invariant MapRows(schema, table, rows[..i]) == Ok(mapped)
    {
      var mappedObject := MapRow(schema, table, rows[i]);
      MapRowsStep(schema, table, rows, i, mapped);
      if mappedObject.Err? {
        MapRowsErrorPersists(schema, table, rows, i + 1, mappedObject.error);
        return Err(mappedObject.error);
      }
      mapped := mapped + [mappedObject.value];
    }
    assert rows[..|rows|] == rows;
    return Ok(mapped);
  }

  /**
    `MapExcel`: for every sheet, in order, the records of its rows from `startRow` on
    (`Skip(startRow - 1)`, the subtraction unchecked), all appended to one list. A cell
    that raises aborts the whole call.
  */
  method MapExcel(schema: Schema, book: Workbook, startRow: int32) returns (r: Result<seq<Record>, MapError>)
    ensures r == MapWorkbook(schema, book, startRow)
  {
    var table := book.sharedStrings;
    var sheets := book.sheets;
    var mappedData: seq<Record> := [];
    for s := 0 to |sheets|
      invariant MapSheets(schema, table, sheets[..s], startRow) == Ok(mappedData)
    {
      var mappedRows := MapSheetRows(schema, table, Skip(sheets[s], UncheckedDecrement(startRow)));
      MapSheetsStep(schema, table, sheets, startRow, s, mappedData);
      if mappedRows.Err? {
        MapSheetsErrorPersists(schema, table, sheets, startRow, s + 1, mappedRows.error);
        return Err(mappedRows.error);
      }
      mappedData := mappedData + mappedRows.value;
    }
    assert sheets[..|sheets|] == sheets;
    return Ok(mappedData);
  }
}
