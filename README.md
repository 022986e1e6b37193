# MyExcelBook, modelled in Dafny

`MyExcelBook` (Recipe_347/Program.cs) is a thin façade over a spreadsheet
library. It creates or opens a workbook bound to a file path. It keeps one sheet
active and writes text into cells, with an optional style. It reads a cell back
as a typed value and enumerates the rows of the sheet and the cells of a row.

The model keeps the façade's own logic and states the library's behaviour, where
it matters, as explicit assumptions.

- `wrappers.dfy`: `Option`, standing for a C# reference that may be null.
- `cells.dfy` (module `Cells`): the cell-type tags, the cell record, the value a read
  yields, and the resolver `CellValue` (the source's `_CellValue`). Its termination
  condition is `Resolves`: resolution takes the Formula case at most once.
  `Readable` is that condition for a read through the cell's own tag.
- `sheets.dfy` (module `Sheets`): a sheet is a sparse `map<int, map<int, Cell>>`.
  It holds the library's row and cell operations and the three ways a cell is written.
- `workbook.dfy` (module `Workbook`): the class `MyExcelBook`. It has the file path,
  the workbook's sheets and the active sheet as fields. Its methods change them in
  place. Its invariant `Valid()` says the active sheet exists and every cell is
  readable.

Assumptions about the library (its code is not part of this model):
- `CreateRow(i)` puts a new, empty row at `i` and replaces a row already there.
- `CreateCell(c)` puts a new blank cell with the default style at `c` and replaces a
  cell already there.
- `SetCellValue(string)` on a formula cell keeps the formula and caches the text
  as a String result. On any other cell it makes a String cell.
- `FirstRowNum` and `LastRowNum` are the least and the greatest row index. Both are
  0 on a sheet without rows, so `GetRows` on an empty sheet yields one null.
- `LastCellNum` is one past the greatest column index, or -1 on a row without cells.
- A formula's cached result type is never Formula or Unknown. Every workbook that
  `Open` receives therefore satisfies `Valid()`.

Two consequences of the code:
- `GetRows` starts at `FirstRowNum`. With rows only at 1 and 3 it yields three
  entries: row 1, null, row 3 (`Sheets.RowsFromFirstToLast`).
- The index overload of `SetValue` always replaces the row (see Findings).

## Model

| member | source | states |
|---|---|---|
| Cells.CellValue | Recipe_347/Program.cs:70-96 | resolution yields null exactly when the tag it settles on is Unknown or Error; the only strings it yields are the cell's string value and "" |
| Cells.SimpleTags | Recipe_347/Program.cs:75-92 | a String tag reads as the text, a Boolean tag as the flag, a Blank tag as "" (never null); each of these always terminates |
| Cells.NumericTag | Recipe_347/Program.cs:79-86 | a Numeric tag reads as a date exactly when the cell is date-formatted, else as its number |
| Cells.FormulaUsesCachedType | Recipe_347/Program.cs:87-90 | a Formula tag reads as the cell under its cached result type, whose effective tag is not Formula |
| Cells.FormulaTextIgnored | Recipe_347/Program.cs:87-90 | the formula text never changes what a cell reads as |
| Cells.StyleIgnored | Recipe_347/Program.cs:70-96 | the fill, borders and font of a style never change what a cell reads as |
| Cells.UnknownDefers | Recipe_347/Program.cs:72 | a declared Unknown tag behaves as the cell's own tag, for termination and for the value |
| Cells.WellFormedResolves | Recipe_347/Program.cs:87-90 | a cached result type other than Formula and Unknown makes resolution terminate under every declared tag |
| Cells.ReadableIff | Recipe_347/Program.cs:67 | reading a cell through its own tag terminates exactly when it is not a formula or its cached type is neither Formula nor Unknown |
| Cells.UnresolvedRecursesAgain | Recipe_347/Program.cs:72-90 | where resolution does not terminate, the Formula case recurses into a call that again does not terminate |
| Cells.SetText | Recipe_347/Program.cs:42 | after setting text the cell is readable and reads as exactly that text; its style and formula are kept |
| Sheets.FirstRowNum | Recipe_347/Program.cs:100 | the least row index present, 0 when none |
| Sheets.LastRowNum | Recipe_347/Program.cs:100 | the greatest row index present, 0 when none, never below FirstRowNum |
| Sheets.LastCellNum | Recipe_347/Program.cs:108 | one past the greatest column present, -1 when none |
| Sheets.WriteInRow | Recipe_347/Program.cs:39-43 | the target reads as the text; an existing cell is reused and keeps style and formula; the other cells of the row are unchanged and every other row is unchanged as a whole; readability is kept |
| Sheets.WriteAt | Recipe_347/Program.cs:138-145 | as written: the target reads as the text, carries exactly the given style, is the only cell of its row; other rows are unchanged |
| Sheets.WriteAtKeepingRow | Recipe_347/Program.cs:138-145 | as intended: the target reads as the text; the style is replaced only when given; the other cells of the row are unchanged and every other row is unchanged as a whole |
| Sheets.WriteAtLosesEarlierCell | Recipe_347/Program.cs:140-141 | two writes into one row: the as-written operation loses the first, the intended one keeps it |
| Sheets.RowsFromFirstToLast | Recipe_347/Program.cs:98-104 | rows at 1 and 3 enumerate as three entries: row 1, a gap, row 3 |
| Workbook.MyExcelBook.Create | Recipe_347/Program.cs:26-32 | an empty workbook bound to the path, no active sheet |
| Workbook.MyExcelBook.Open | Recipe_347/Program.cs:51-58 | the workbook holds the file's sheets, bound to the path, no active sheet |
| Workbook.MyExcelBook.CreateSheet | Recipe_347/Program.cs:34-35 | an empty sheet is appended and becomes active; invariant kept |
| Workbook.MyExcelBook.SelectSheet | Recipe_347/Program.cs:60-61 | the sheet at the given position becomes active; sheets unchanged |
| Workbook.MyExcelBook.CreateRow | Recipe_347/Program.cs:37 | the active sheet gets an empty row at the index, replacing any there; the returned handle refers to it |
| Workbook.MyExcelBook.GetRow | Recipe_347/Program.cs:116 | a handle exactly when the row is present in the active sheet; nothing is created |
| Workbook.MyExcelBook.SetValue | Recipe_347/Program.cs:39-43 | only the handle's sheet changes, as WriteInRow says |
| Workbook.MyExcelBook.SetValueAt | Recipe_347/Program.cs:138-145 | only the active sheet changes, as WriteAt says |
| Workbook.MyExcelBook.SetValueKeepingRow | Recipe_347/Program.cs:138-145 | the corrected operation: only the active sheet changes, as WriteAtKeepingRow says |
| Workbook.MyExcelBook.GetValue | Recipe_347/Program.cs:63-68 | null when the row or cell is absent, else the cell resolved through its own tag; a function, so nothing changes |
| Workbook.MyExcelBook.GetRows | Recipe_347/Program.cs:98-104 | LastRowNum - FirstRowNum + 1 entries in ascending index order, each the row there or null; every row present appears |
| Workbook.MyExcelBook.GetCells | Recipe_347/Program.cs:106-114 | entries for columns 0 .. LastCellNum - 1 in order, null for an absent cell, none when LastCellNum <= 0; every cell at a column >= 0 appears |
| Workbook.MyExcelBook.CreateMyStyle | Recipe_347/Program.cs:119-135 | solid royal-blue fill, thin borders on all four sides, 14-point white font |
| Workbook.Sample | Recipe_347/Program.cs:7-12 | after the usage example the sheet has rows 1-3, row i holds only the cell (i, i), "Item i" reads back there, (2, 2) has the preset style (solid royal-blue fill, four thin borders, 14-point white font) and (1, 1) and (3, 3) the default style |

## Left out

- `Save` (Recipe_347/Program.cs:45-49) is not modelled. It serialises the workbook to the file path, which is file I/O.
- `Open` reads and parses the file. Here the parsed sheets are a parameter, and file errors are not modelled.
- The XLSX format, which the library reads and writes, is not modelled.
- The library's date-format test is a boolean field of the cell.
- Doubles and dates are opaque values: a bit pattern and a tick count.
- The library rejects row and column indices out of its range by throwing. Indices here are unbounded integers.
- The library rejects duplicate or invalid sheet names. That is not modelled.
- Workbook.MyExcelBook.SelectSheet: a position outside the workbook throws in the library. Here that is a precondition.
- A method that needs the active sheet requires one. The source dereferences a null `_sheet` there.
- Strings are never null. The library's limit on cell text length is not modelled.
- The library throws when the formula text (`CellFormula`, line 89) or the cached result type (`CachedFormulaResultType`, line 90) of a non-formula cell is read. Both reads happen only when `CellValue` is given Formula for a cell that is not a formula, which `GetValue` never does. Here the fields are simply read.
- Workbook.MyExcelBook.CreateRow: a row handle is a (sheet, index) pair. A handle to a row that `CreateRow` later replaces refers here to the new row. In the library it refers to the detached old row.
- Workbook.MyExcelBook.GetRows / GetCells: the source's methods are lazy iterators. Their loops run while the result is enumerated, and each step reads the current sheet, its current `LastRowNum` and the current row and cell. So a `SelectSheet`, `CreateRow` or `SetValue` between the call and the enumeration changes what is yielded. Here both return an eager copy of the state at the time of the call. `GetCells` returns cell values, not live cell handles.
- Cells.StyleIgnored: a style here has only fill, borders and font. Its number format, which the library's date test reads, is folded into the cell's `dateFormatted` field. Assigning a style (`WriteAt`, `WriteAtKeepingRow`, `SetValueKeepingRow`) therefore does not update that field, whereas in the library a new style can turn a number into a date or back.
- Workbook.MyExcelBook.CreateMyStyle: the style and font it registers in the workbook's style table are not modelled. It returns the style record only.
- The `_CellValue` default argument (`CellType.Unknown`) is never used by the source. `CellValue` takes the declared tag explicitly.
- Recipe_308_(2)/Startup.cs, the hosting bootstrap, is not part of this model.

## Findings

| source | as written | input that shows it | evidently intended | confidence | as-written member | corrected member |
|---|---|---|---|---|---|---|
| Recipe_347/Program.cs:140-141 | `SetValue(row, col, value, style)` calls `CreateRow` and `CreateCell` unconditionally, which replaces an existing row with an empty one | `SetValue(1, 1, "Item 1")`, then `SetValue(1, 2, "Item 2")`; `GetValue(1, 1)` then gives null | reuse the row when present, as the IRow overload reuses the cell (line 41), so "Item 1" survives | medium: rests on the library's replace-on-create behaviour; not executed | Sheets.WriteAtLosesEarlierCell | Sheets.WriteAtKeepingRow |
