# ExcelMapper in Dafny

A model of `ExcelMapper<T>`, the generic row-to-record mapper of the Custom Excel File
Mapper repository. `MapExcel` turns every row of every worksheet, from a 1-based
`startRow` on, into one record. It uses the record type's attributes to decide which cell
feeds which property:

- A cell feeds the first property whose `ExcelColumnAttribute.ColumnIndex - 1` equals a
  running zero-based column counter.
- If no property matches by index, the cell feeds the first property whose `ColumnName`
  equals the cell reference's letters.
- A property marked with `IgnoreExcelColumnAttribute(Ignore = true)` is never written.
- The cell's text, or its shared-string table entry, is coerced to the property's type by
  `ConvertValue` and stored with `PropertyInfo.SetValue`. A value that is still not of
  the property's type (text that does not parse, for an `int` property) makes `SetValue`
  throw, which aborts the whole call.

## Files

- `wrappers.dfy`, module `Wrappers`: `Option` (C# null) and `Result` (a call that may throw).
- `int32_text.dfy`, module `Int32Text`: the 32-bit `int` type and its decimal text. It
  holds `ParseInt32`, which stands for `int.TryParse` and `int.Parse`, the grammar it
  accepts, and the formatting that proves parsing round-trips.
- `excel_mapper.dfy`, module `ExcelMapper`: the data model (schema of `Field`s, cells,
  rows, sheets, workbook with its shared-string table), the pure helpers of the class and
  the imperative loop. The loop's specification is `MapWorkbook`, a left fold over sheets
  (`MapSheets`), rows (`MapRows`) and cells (`MapCells`, one `ApplyCell` per cell).
  - The source's three nested `foreach` loops are three methods, one loop each:
    `MapExcel` (sheets), `MapSheetRows` (rows) and `MapRow` (cells, with the column
    counter).
  - Each method is proved to return exactly its fold.
- `excel_mapper_properties.dfy`, module `ExcelMapperProperties`: lemmas that relate several
  calls:
  - column-letter extraction;
  - index-over-name priority;
  - coercion, including its idempotence, and what `SetValue` accepts;
  - shared-string lookup;
  - which properties a row writes (frame, last writer, ignored fields, default records);
  - which cell aborts a row (the first one that raises, in both directions);
  - record count and order over the whole workbook, including the wrapped `startRow - 1`.
- `worked_example.dfy`, module `WorkedExample`: a `Name`/`Age` record type read from a sheet
  with a header row.

Modelling choices:

- A record is the sequence of its properties' values, in schema order. A property is
  identified by its position in the schema.
- `Field.initial` is the value `Activator.CreateInstance<T>()` leaves in the property.
- `Value` is `Null | Str | Int`: cell values are strings or null, and the only conversion
  produces an `int`.
- `FieldType` distinguishes `int`, `string`, and every other type. For any other type it
  records whether a string and whether a boxed `int` are instances of it. So `object`,
  `IComparable`, `ICloneable` and `IEnumerable<char>` hold strings, and `DateTime` holds
  neither. For such a type both branches of `ConvertValue` return the value unchanged;
  whether `SetValue` then accepts it depends on that flag.
- The attribute classes are not part of this model. So a property's `ExcelColumnAttribute`
  is an optional record of an optional 1-based index and an optional name. A property
  whose index is absent or 0 never matches by index.
- `ColumnIndex - 1` and `startRow - 1` are computed as unchecked 32-bit C# arithmetic
  (`UncheckedDecrement`). `startRow` is a 32-bit integer. At `int.MinValue` the subtraction
  wraps to `int.MaxValue`, so every row of a sheet of fewer than 2^31 rows is skipped and
  the call returns no record (`LowestStartRowMapsNothing`). Every other `startRow` of at most 1 maps every row.
- A failing `int.Parse`, `ElementAt` or `SetValue` aborts the whole call. So every fold
  and method returns `Result`, and the error is the one from the first failing cell.
- A property with column index `i` does not always receive the value of cell `i - 1`. An
  earlier property that declares the same index takes the cell. A later cell can
  overwrite the property through a name match. `IndexedCellFillsField` states the
  conditions under which the property does receive that value. `LastWriterWins` states
  the general rule.

## Model

| member | source | states |
|---|---|---|
| `Int32Text.ParseInt32` | ExcellMapper/ExcellMapper.cs:85 | a successful parse yields a value within the 32-bit range, and only text holding a digit parses |
| `Int32Text.ParseInt32Grammar` | ExcellMapper/ExcellMapper.cs:85 | a text parses exactly when, after an optional sign, it is one or more ASCII digits whose signed value fits in 32 bits, and it then yields that signed value |
| `Int32Text.ParseInt32AcceptsNonCanonical` | ExcellMapper/ExcellMapper.cs:85 | "+5" parses to 5 and "007" to 7 |
| `Int32Text.ParseInt32RejectsMalformed` | ExcellMapper/ExcellMapper.cs:85 | "1a" and a lone "-" do not parse |
| `Int32Text.ParseIntToText` | ExcellMapper/ExcellMapper.cs:85 | every 32-bit integer's decimal text parses back to that integer |
| `ExcelMapper.ColumnName` | ExcellMapper/ExcellMapper.cs:96-100 | the column name consists only of letters A-Z and is no longer than the reference |
| `ExcelMapperProperties.ColumnNameAppend` | ExcellMapper/ExcellMapper.cs:99 | letter extraction distributes over concatenation, so the letters keep their original order |
| `ExcelMapperProperties.ColumnNameKeepsLetters` | ExcellMapper/ExcellMapper.cs:99 | a string made only of A-Z is returned unchanged |
| `ExcelMapperProperties.ColumnNameDropsOthers` | ExcellMapper/ExcellMapper.cs:99 | a string with no A-Z character (digits, lower case, anything else) yields the empty name |
| `ExcelMapperProperties.ColumnNameOfReference` | ExcellMapper/ExcellMapper.cs:96-100 | for a reference made of letters followed by a row number, the name is exactly the letters |
| `ExcelMapperProperties.ColumnNameIdempotent` | ExcellMapper/ExcellMapper.cs:96-100 | extracting letters twice gives the same as once |
| `ExcelMapperProperties.ColumnNameCounts` | ExcellMapper/ExcellMapper.cs:99 | each A-Z letter occurs in the name as often as in the reference, and no other character occurs |
| `ExcelMapperProperties.ColumnNameExamples` | ExcellMapper/ExcellMapper.cs:98 | "A1" gives "A", "AB23" gives "AB", "Z100" gives "Z", "ab12" gives "" |
| `ExcelMapper.FirstMatch` | ExcellMapper/ExcellMapper.cs:42-52 | `FirstOrDefault`: the result is a position whose element satisfies the predicate and no earlier element does; none exactly when no element does |
| `ExcelMapper.FindByIndex` | ExcellMapper/ExcellMapper.cs:42-43 | the first property matching the counter by index: it matches and no earlier one does; none exactly when no property matches |
| `ExcelMapper.FindByName` | ExcellMapper/ExcellMapper.cs:48-52 | the first property matching the letters by name: it matches and no earlier one does; none exactly when no property matches |
| `ExcelMapper.UncheckedDecrement` | ExcellMapper/ExcellMapper.cs:43 | `x - 1` in 32-bit two's complement: the result lies in the 32-bit range and is congruent to `x - 1` modulo 2^32 |
| `ExcelMapper.MatchesIndex` | ExcellMapper/ExcellMapper.cs:43 | a property matches the counter by index exactly when its attribute declares the index one past the counter, or `int.MinValue` when the counter is `int.MaxValue`; a property without an attribute or index never matches |
| `ExcelMapper.MatchesName` | ExcellMapper/ExcellMapper.cs:48-52 | a property without the attribute, or whose attribute names no column, never matches; a match means the attribute's name equals the letters exactly |
| `ExcelMapper.ResolveField` | ExcellMapper/ExcellMapper.cs:37-53 | when some property matches the counter by index, the result is the first such property; otherwise it is the first property matching the letters by name, and a result exists exactly when one does; a negative counter resolves nothing |
| `ExcelMapperProperties.IndexMatchIgnoresName` | ExcellMapper/ExcellMapper.cs:39-53 | once a property matches by index, the cell's letters do not affect which property is chosen |
| `ExcelMapper.IsIgnored` | ExcellMapper/ExcellMapper.cs:116-120 | a property without the ignore attribute, or with `Ignore = false`, is not ignored; one with `Ignore = true` is |
| `ExcelMapper.GetCellValue` | ExcellMapper/ExcellMapper.cs:102-114 | a cell that is not a shared string yields its inner text; a shared-string cell whose text is not an integer fails with that text; otherwise it yields the table item at the parsed index (its text, or null), or fails with the index when there is none |
| `ExcelMapperProperties.SharedStringLookup` | ExcellMapper/ExcellMapper.cs:106-110 | a shared-string cell whose text parses to a valid index yields the table entry at that index |
| `ExcelMapperProperties.SharedStringPastEnd` | ExcellMapper/ExcellMapper.cs:108-109 | a shared-string cell whose text parses to a negative index or one past the end of the table fails with that index |
| `ExcelMapperProperties.SharedStringOfIndexText` | ExcellMapper/ExcellMapper.cs:106-110 | a shared-string cell holding the decimal text of a valid index yields the table entry at that index |
| `ExcelMapper.IsInstanceOfType` | ExcellMapper/ExcellMapper.cs:77 | null is an instance of no type; `string` holds exactly the strings and `int` exactly the ints |
| `ExcelMapper.ToText` | ExcellMapper/ExcellMapper.cs:85 | `value.ToString()`: a string is its own text, and the text of any 32-bit int parses back to that int |
| `ExcelMapper.ConvertValue` | ExcellMapper/ExcellMapper.cs:75-94 | the result is the original value, or, for an `int` target, the int parsed from the value's text; it is null exactly when the input is |
| `ExcelMapperProperties.ConvertKeepsConforming` | ExcellMapper/ExcellMapper.cs:77-80 | null, and a value already of the target type, are returned unchanged |
| `ExcelMapperProperties.ConvertParsesInt` | ExcellMapper/ExcellMapper.cs:82-88 | for an `int` target, a string that parses becomes that int |
| `ExcelMapperProperties.ConvertFallsBack` | ExcellMapper/ExcellMapper.cs:82-93 | a target other than `int`, or text that does not parse, gives back the original value |
| `ExcelMapperProperties.ConvertChangedConforms` | ExcellMapper/ExcellMapper.cs:75-94 | whenever conversion changes a value, the result is an instance of the target type |
| `ExcelMapperProperties.ConvertIdempotent` | ExcellMapper/ExcellMapper.cs:75-94 | converting twice gives the same as converting once |
| `ExcelMapperProperties.ConvertIntText` | ExcellMapper/ExcellMapper.cs:82-88 | the decimal text of any 32-bit integer converts to that integer for an `int` property |
| `ExcelMapper.SetValue` | ExcellMapper/ExcellMapper.cs:60 | setting succeeds exactly for null or an instance of the property's type; the property then holds the value, or 0 for null in an `int`; any other value (of those a cell can produce) fails with that value and type |
| `ExcelMapper.StoredValue` | ExcellMapper/ExcellMapper.cs:58-60 | whatever a cell stores is of the property's type, or null in a property that is not an `int`; a failure comes from reading the cell or from setting a value that conversion left unchanged |
| `ExcelMapperProperties.PlainTextIntoInt` | ExcellMapper/ExcellMapper.cs:58-60 | a plain cell stores in an `int` property the int its text denotes, and fails with the text when it does not parse |
| `ExcelMapperProperties.PlainTextIntoString` | ExcellMapper/ExcellMapper.cs:58-60 | a plain cell stores its text unchanged in a `string` property |
| `ExcelMapperProperties.NullItemStoresDefault` | ExcellMapper/ExcellMapper.cs:58-60 | a shared-string item without text stores 0 in an `int` property and null in any other |
| `ExcelMapperProperties.NoIntIntoOther` | ExcellMapper/ExcellMapper.cs:58-60 | a property that is not an `int` is never handed an int, neither after conversion nor once stored |
| `ExcelMapper.DefaultRecord` | ExcellMapper/ExcellMapper.cs:31 | a fresh record has one value per property, each its initial value |
| `ExcelMapper.Skip` | ExcellMapper/ExcellMapper.cs:29 | `Skip(count)` keeps the last `max(0, n - max(0, count))` rows, in order |
| `ExcelMapper.ApplyCell` | ExcellMapper/ExcellMapper.cs:36-62 | one cell keeps the record's shape (one value per property) |
| `ExcelMapper.MapCells` | ExcellMapper/ExcellMapper.cs:31-64 | a row that maps yields a record with one value per property |
| `ExcelMapper.MapRow` | ExcellMapper/ExcellMapper.cs:31-66 | the cell loop, whose counter starts at 0 and rises by one per cell whether or not the cell matched, returns exactly the row's record or its first error |
| `ExcelMapper.MapSheetRows` | ExcellMapper/ExcellMapper.cs:29-67 | the row loop returns exactly the records of the rows in order, or the first row's error |
| `ExcelMapper.MapExcel` | ExcellMapper/ExcellMapper.cs:17-74 | the sheet loop returns exactly the workbook's specification `MapWorkbook`: the records of every sheet's rows after the first `startRow - 1` (unchecked), appended in sheet order, or the first error |
| `ExcelMapperProperties.WrittenField` | ExcellMapper/ExcellMapper.cs:54-57 | the property a cell writes is never an ignored one |
| `ExcelMapperProperties.CellError` | ExcellMapper/ExcellMapper.cs:54-60 | a cell raises only when it writes a property |
| `ExcelMapperProperties.ApplyCellEffect` | ExcellMapper/ExcellMapper.cs:54-61 | a cell that writes nothing leaves the record unchanged; a cell that raises fails with its exception; otherwise it sets only its property, to the value it stores |
| `ExcelMapperProperties.UnwrittenFieldKeepsInitial` | ExcellMapper/ExcellMapper.cs:31-64 | a property that no cell of the row writes keeps its initial value |
| `ExcelMapperProperties.IgnoredFieldNeverWritten` | ExcellMapper/ExcellMapper.cs:56 | an ignored property keeps its initial value whatever the row holds |
| `ExcelMapperProperties.LastWriterWins` | ExcellMapper/ExcellMapper.cs:34-64 | a property holds the value stored by the last cell that writes it |
| `ExcelMapperProperties.LastCellWrites` | ExcellMapper/ExcellMapper.cs:54-61 | the last cell of a row that maps leaves the property it writes holding the value it stores |
| `ExcelMapperProperties.LastCellKeeps` | ExcellMapper/ExcellMapper.cs:54-61 | the last cell of a row that maps leaves every property it does not write as the earlier cells left it |
| `ExcelMapperProperties.IndexedCellFillsField` | ExcellMapper/ExcellMapper.cs:39-60 | the cell at position `ColumnIndex - 1` fills the first property declaring that index with the value it stores, when the property is not ignored and names no column |
| `ExcelMapperProperties.UnmatchedRowIsDefault` | ExcellMapper/ExcellMapper.cs:31-66 | a row none of whose cells writes a property still yields a record, the default one |
| `ExcelMapperProperties.MappedRowPrefix` | ExcellMapper/ExcellMapper.cs:34-64 | when a row maps, so do its cells before the last, and the last cell completes that record |
| `ExcelMapperProperties.LastCellOfMappedRow` | ExcellMapper/ExcellMapper.cs:54-61 | the last cell of a row that maps does not raise |
| `ExcelMapperProperties.RowMapsWhenNoCellFails` | ExcellMapper/ExcellMapper.cs:34-64 | a row none of whose cells raises maps |
| `ExcelMapperProperties.MappedRowHasNoFailingCell` | ExcellMapper/ExcellMapper.cs:34-64 | no cell of a row that maps raises |
| `ExcelMapperProperties.MapCellsOkIffNoCellFails` | ExcellMapper/ExcellMapper.cs:34-64 | a row maps exactly when none of its cells raises; cells of unmapped or ignored columns never raise |
| `ExcelMapperProperties.RowErrorComesFromWrittenCell` | ExcellMapper/ExcellMapper.cs:54-60 | a failing row fails with the exception of a cell that raises, every earlier cell having succeeded |
| `ExcelMapperProperties.RowFailsAtFirstFailingCell` | ExcellMapper/ExcellMapper.cs:54-60 | conversely, the first cell that raises aborts the row with its exception, whatever the later cells hold |
| `ExcelMapperProperties.MapRowsAppend` | ExcellMapper/ExcellMapper.cs:29-67 | mapping two runs of rows one after the other gives the records of the first and then the second, or the first error |
| `ExcelMapperProperties.MapRowsOneRecordPerRow` | ExcellMapper/ExcellMapper.cs:29-67 | rows that map give exactly one record per row, in row order, each that row's record |
| `ExcelMapperProperties.MapRowsOkIffEveryRow` | ExcellMapper/ExcellMapper.cs:29-67 | rows map exactly when every row maps |
| `ExcelMapperProperties.MapRowsFirstError` | ExcellMapper/ExcellMapper.cs:29-67 | when rows fail, the error is that of the first failing row |
| `ExcelMapperProperties.SelectedRowsCount` | ExcellMapper/ExcellMapper.cs:24-29 | each sheet contributes `max(0, rows - max(0, startRow - 1))` rows, with `startRow - 1` taken as `int.MaxValue` at `int.MinValue` |
| `ExcelMapperProperties.StartRowOneSelectsAll` | ExcellMapper/ExcellMapper.cs:29 | with `startRow` at most 1 but above `int.MinValue`, every row of every sheet is mapped |
| `ExcelMapperProperties.LowestStartRowSelectsNone` | ExcellMapper/ExcellMapper.cs:29 | with `startRow` at `int.MinValue`, no row of a sheet of fewer than 2^31 rows is visited |
| `ExcelMapperProperties.MapSheetsMapsSelectedRows` | ExcellMapper/ExcellMapper.cs:24-29 | mapping the workbook is mapping its rows from `startRow` on, sheet after sheet, in one run |
| `ExcelMapperProperties.MapWorkbookRecords` | ExcellMapper/ExcellMapper.cs:17-74 | the call succeeds exactly when every selected row maps; it then yields one record per selected row, their number the sum over sheets, each that row's record in sheet-then-row order; otherwise it fails with the first failing row's error |
| `ExcelMapperProperties.LowestStartRowMapsNothing` | ExcellMapper/ExcellMapper.cs:17-29 | `MapExcel` with `startRow` at `int.MinValue` returns an empty list |
| `WorkedExample.NameCellFillsName` | ExcellMapper/ExcellMapper.cs:36-61 | the first plain cell of a row, at counter 0, writes its text to the property declaring column 1 |
| `WorkedExample.AgeCellFillsAge` | ExcellMapper/ExcellMapper.cs:36-61 | the second plain cell, at counter 1, sets the `int` property declaring column 2 to the int its text denotes, or aborts when it does not parse |
| `WorkedExample.PeopleRow` | ExcellMapper/ExcellMapper.cs:34-64 | a two-cell row fills the column-1 property with the first text and the column-2 `int` property with the int the second text denotes; a second text that does not parse aborts the call |
| `WorkedExample.AgesConverted` | ExcellMapper/ExcellMapper.cs:82-93 | for an `int` property, `ConvertValue` turns "30" into the int 30 and leaves "notanumber" the string "notanumber" |
| `WorkedExample.TwoRowsMapped` | ExcellMapper/ExcellMapper.cs:29-67 | two rows yield their two records in order, or the error of the first that fails |
| `WorkedExample.DataRowsMapped` | ExcellMapper/ExcellMapper.cs:29-67 | two data rows whose ages parse yield their two records, in row order; otherwise the first row whose age does not parse aborts the call |
| `WorkedExample.HeaderSkipped` | ExcellMapper/ExcellMapper.cs:29 | with `startRow` 2 the first row of the sheet is skipped and the workbook yields exactly the records of the rows after it |
| `WorkedExample.AliceAndBob` | ExcellMapper/ExcellMapper.cs:17-94 | the sheet "Name, Age / Alice, 30 / Bob, notanumber" read from row 2 aborts on Bob's row: "notanumber" stays a string and `SetValue` rejects it for the `int` property |
| `WorkedExample.AliceAndBobAged` | ExcellMapper/ExcellMapper.cs:17-94 | the same sheet with Bob aged "41" yields Alice with the int 30 and Bob with the int 41, in row order |

## Left out

- Opening the stream with `SpreadsheetDocument.Open` is not modelled: the workbook is
  given as a value. So are the `WorkbookPart`/`WorksheetParts`/`SheetData` walk and the
  `using` disposal. This is library I/O.
- Reflection is not modelled (`GetProperties`, `GetCustomAttribute`,
  `Activator.CreateInstance<T>`). The schema is an explicit sequence, and each property's
  default is its `initial` value. A type that cannot be constructed, and a property that
  carries an attribute twice, are runtime type-system errors.
- The schema holds only the public instance properties that have a setter. But
  `GetProperties()` (lines 42 and 48) also lists get-only, static and indexer properties,
  and both `FirstOrDefault` searches see them. These are not modelled:
  - A get-only property that a cell resolves to makes `SetValue` (line 60) throw, so the
    whole call aborts. The model has no such property, so it resolves the cell to the next
    matching property and writes that one instead.
  - A static property is shared by every record, not one value per record.
  - An indexer makes `SetValue` throw for want of index arguments.
- `T` is taken to be a class whose properties simply store what they are set to.
  `ExcelMapper<T>` (line 15) does not constrain `T`, and two other cases are not modelled:
  - A struct `T`: `SetValue` (line 60) boxes `mappedObject` and sets the copy, so line 66
    adds the unchanged default record. For a struct every record stays default, though a
    `SetValue` error still aborts the call. The model's writes would not happen there, so
    `LastWriterWins`, `IndexedCellFillsField`, `NameCellFillsName` and `AliceAndBobAged`
    hold only for a class `T`.
  - A setter with logic: one that writes another property breaks the "every other
    property is unchanged" part of `ApplyCellEffect`, and one that throws aborts the call
    where the model succeeds.
- ExcelMapper.SetValue: a null set on a value-type property other than `int` (a shared-string
  item without text, mapped to a `DateTime` property, say) becomes that type's default in
  C#. `Value` cannot represent such defaults, so the model stores null there.
- The .NET `Regex` engine is not modelled. `Regex.Replace(reference, "[^A-Z]", "")` is the
  character filter `ColumnName`.
- Int32Text.ParseInt32: does not model the culture-specific sign symbols, the whitespace
  or the `NumberStyles` rules of `int.TryParse`/`int.Parse`. It accepts an optional `+`
  or `-` and one or more ASCII digits, within the 32-bit range.
- A cell with no `CellReference` is not modelled: `Regex.Replace` would throw on a null
  input, and the model's reference is always a string.
- A workbook with no shared-string table part is not modelled separately. There,
  `GetCellValue` would fail with a null reference. The model's table is always present,
  possibly empty, so that cell fails with an out-of-range index.
- Overflow of the `int` column counter is not modelled. It needs more than 2^31 cells in
  one row.
- ExcelMapperProperties.LowestStartRowSelectsNone: is stated only for sheets of fewer than
  2^31 rows. `Skip(int.MaxValue)` leaves rows of a larger sheet, which no spreadsheet format
  allows.
- ExcelMapperProperties.LowestStartRowMapsNothing: is stated for the same sheets, for the
  same reason.
- Value coercion covers the types `ConvertValue` distinguishes. Nullable `int?` is one of
  the other types: it gets no conversion, as in the source, where `typeof(int?)` is not
  `typeof(int)`.
