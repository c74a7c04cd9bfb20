/**
  A worked scenario: a record type with a `Name` property in column 1 and an `int` `Age`
  property in column 2, read from a sheet whose first row is a header.
*/
module WorkedExample {
  import opened Wrappers
  import opened Int32Text
  import opened ExcelMapper
  import opened ExcelMapperProperties

  /** `Name` (a string, column 1) and `Age` (an int, column 2, initially 0). */
  function PeopleSchema(): Schema {
    [ Field("Name", StringType, Some(ColumnAttribute(Some(1), None)), None, Null),
      Field("Age", IntType, Some(ColumnAttribute(Some(2), None)), None, Int(0)) ]
  }

  /** A two-cell data row of plain cells. */
  predicate PlainPair(row: Row) {
    |row| == 2 && row[0].dataType.None? && row[1].dataType.None?
  }

  /** The record of a data row whose age text is an integer. */
  function Person(row: Row): Record
    requires PlainPair(row) && ParseInt32(row[1].innerText).Some?
  {
    [Str(row[0].innerText), Int(ParseInt32(row[1].innerText).value)]
  }

  /** The first cell of a row, read at counter 0, writes its text to `Name`. */
  lemma {:induction false} NameCellFillsName(name: Cell)
    requires name.dataType.None?
    ensures ApplyCell(PeopleSchema(), [], DefaultRecord(PeopleSchema()), 0, name) == Ok([Str(name.innerText), Int(0)])
  {
    var schema := PeopleSchema();
    assert MatchesIndex(schema[0], 0);
    PlainTextIntoString(name, []);
    assert DefaultRecord(schema)[0 := Str(name.innerText)] == [Str(name.innerText), Int(0)];
  }

  /** The second cell of a row, read at counter 1, sets `Age` to the int its text denotes, or aborts. */
  lemma {:induction false} AgeCellFillsAge(age: Cell, rec: Record)
    requires age.dataType.None? && |rec| == 2
    ensures ParseInt32(age.innerText).Some? ==>
      ApplyCell(PeopleSchema(), [], rec, 1, age) == Ok(rec[1 := Int(ParseInt32(age.innerText).value)])
    ensures ParseInt32(age.innerText).None? ==>
      ApplyCell(PeopleSchema(), [], rec, 1, age) == Err(ValueNotAssignable(Str(age.innerText), IntType))
  {
    var schema := PeopleSchema();
    assert !MatchesIndex(schema[0], 1) && MatchesIndex(schema[1], 1);
    PlainTextIntoInt(age, []);
  }

  /**
    A row of two plain cells fills `Name` with the first text and `Age` with the int the
    second denotes; when the second is not an integer, setting it on `Age` aborts the call.
  */
  lemma {:induction false} PeopleRow(row: Row)
    requires PlainPair(row)
    ensures ParseInt32(row[1].innerText).Some? ==> MapCells(PeopleSchema(), [], row) == Ok(Person(row))
    ensures ParseInt32(row[1].innerText).None? ==>
      MapCells(PeopleSchema(), [], row) == Err(ValueNotAssignable(Str(row[1].innerText), IntType))
  {
    var schema := PeopleSchema();
    var r1 := [Str(row[0].innerText), Int(0)];
    assert row[..0] == [];
    MapCellsStep(schema, [], row, 0, DefaultRecord(schema));
    NameCellFillsName(row[0]);
    MapCellsStep(schema, [], row, 1, r1);
    AgeCellFillsAge(row[1], r1);
    if ParseInt32(row[1].innerText).Some? {
      assert r1[1 := Int(ParseInt32(row[1].innerText).value)] == Person(row);
    }
    assert row[..2] == row;
  }

  /** "30" converts to the int 30; "notanumber" does not parse and stays a string. */
  lemma AgesConverted()
    ensures ConvertValue(Str("30"), IntType) == Int(30)
    ensures ConvertValue(Str("notanumber"), IntType) == Str("notanumber")
  {
    assert NatToText(3) == "3";
    assert IntToText(30) == "30";
    ParseIntToText(30);
    assert ParseInt32("notanumber") == None;
  }

  /** Two rows map to their two records, in order; the first of them that fails aborts. */
  lemma {:induction false} TwoRowsMapped(schema: Schema, first: Row, second: Row)
    ensures MapRows(schema, [], [first, second]) ==
      match MapCells(schema, [], first)
      case Err(e) => Err(e)
      case Ok(rec1) =>
        match MapCells(schema, [], second)
        case Err(e) => Err(e)
        case Ok(rec2) => Ok([rec1, rec2])
  {
    var rows := [first, second];
    var noRecs: seq<Record> := [];
    assert rows[..0] == [] && rows[0] == first && rows[1] == second;
    MapRowsStep(schema, [], rows, 0, noRecs);
    match MapCells(schema, [], first)
    case Err(e) =>
      MapRowsErrorPersists(schema, [], rows, 1, e);
    case Ok(rec1) =>
      assert noRecs + [rec1] == [rec1];
      MapRowsStep(schema, [], rows, 1, [rec1]);
      assert rows[..2] == rows;
      if MapCells(schema, [], second).Ok? {
        assert [rec1] + [MapCells(schema, [], second).value] == [rec1, MapCells(schema, [], second).value];
      }
  }

  /**
    Two data rows map to their two records, in order, when both ages are integers;
    otherwise the first row whose age is not aborts the call.
  */
  lemma {:induction false} DataRowsMapped(first: Row, second: Row)
    requires PlainPair(first) && PlainPair(second)
    ensures ParseInt32(first[1].innerText).Some? && ParseInt32(second[1].innerText).Some? ==>
      MapRows(PeopleSchema(), [], [first, second]) == Ok([Person(first), Person(second)])
    ensures ParseInt32(first[1].innerText).None? ==>
      MapRows(PeopleSchema(), [], [first, second]) == Err(ValueNotAssignable(Str(first[1].innerText), IntType))
    ensures ParseInt32(first[1].innerText).Some? && ParseInt32(second[1].innerText).None? ==>
      MapRows(PeopleSchema(), [], [first, second]) == Err(ValueNotAssignable(Str(second[1].innerText), IntType))
  {
    PeopleRow(first);
    PeopleRow(second);
    TwoRowsMapped(PeopleSchema(), first, second);
  }

  /** With `startRow` 2 the first row of the sheet is skipped and the next two are mapped. */
  lemma {:induction false} HeaderSkipped(header: Row, first: Row, second: Row)
    ensures MapWorkbook(PeopleSchema(), Workbook([[header, first, second]], []), 2)
      == MapRows(PeopleSchema(), [], [first, second])
  {
    var schema := PeopleSchema();
    var sheets := [[header, first, second]];
    assert Skip(sheets[0], UncheckedDecrement(2)) == [first, second];
    var noRecs: seq<Record> := [];
    assert sheets[..0] == [];
    MapSheetsStep(schema, [], sheets, 2, 0, noRecs);
    if MapRows(schema, [], [first, second]).Ok? {
      assert noRecs + MapRows(schema, [], [first, second]).value == MapRows(schema, [], [first, second]).value;
    }
    assert sheets[..1] == sheets;
  }

  /**
    The sheet "Name, Age / Alice, 30 / Bob, notanumber" read from row 2: Alice's row maps,
    but "notanumber" stays a string that cannot be set on the `int` property `Age`, so the
    call aborts on Bob's row.
  */
  lemma AliceAndBob()
    ensures MapWorkbook(PeopleSchema(), Workbook([[
        [Cell("A1", None, "Name"), Cell("B1", None, "Age")],
        [Cell("A2", None, "Alice"), Cell("B2", None, "30")],
        [Cell("A3", None, "Bob"), Cell("B3", None, "notanumber")]]], []), 2)
      == Err(ValueNotAssignable(Str("notanumber"), IntType))
  {
    AgesConverted();
    DataRowsMapped(
      [Cell("A2", None, "Alice"), Cell("B2", None, "30")],
      [Cell("A3", None, "Bob"), Cell("B3", None, "notanumber")]);
    HeaderSkipped(
      [Cell("A1", None, "Name"), Cell("B1", None, "Age")],
      [Cell("A2", None, "Alice"), Cell("B2", None, "30")],
      [Cell("A3", None, "Bob"), Cell("B3", None, "notanumber")]);
  }

  /** The same sheet with Bob aged "41" yields both people, Alice aged 30 and Bob aged 41. */
  lemma AliceAndBobAged()
    ensures MapWorkbook(PeopleSchema(), Workbook([[
        [Cell("A1", None, "Name"), Cell("B1", None, "Age")],
        [Cell("A2", None, "Alice"), Cell("B2", None, "30")],
        [Cell("A3", None, "Bob"), Cell("B3", None, "41")]]], []), 2)
      == Ok([[Str("Alice"), Int(30)], [Str("Bob"), Int(41)]])
  {
    assert IntToText(30) == "30" && IntToText(41) == "41";
    ParseIntToText(30);
    ParseIntToText(41);
    DataRowsMapped(
      [Cell("A2", None, "Alice"), Cell("B2", None, "30")],
      [Cell("A3", None, "Bob"), Cell("B3", None, "41")]);
    HeaderSkipped(
      [Cell("A1", None, "Name"), Cell("B1", None, "Age")],
      [Cell("A2", None, "Alice"), Cell("B2", None, "30")],
      [Cell("A3", None, "Bob"), Cell("B3", None, "41")]);
  }
}
