/**
 * MyExcelBook (Recipe_347/Program.cs): a workbook of sheets, the active sheet,
 * and the bound file path. The workbook's sheets are a sequence of sparse
 * sheets; the active sheet is a position in it, None until a sheet is created
 * or selected (the source's `_sheet` is null until then).
 */
module Workbook {
  import opened Wrappers
  import opened Cells
  import opened Sheets

  class MyExcelBook {
    var filePath: string
    var sheets: seq<Sheet>
    var active: Option<nat>

    /** The active sheet exists, and every cell of every sheet can be read. */
    ghost predicate Valid()
      reads this
    {
      && (active.Some? ==> active.value < |sheets|)
      && forall i :: 0 <= i < |sheets| ==> ReadableRows(sheets[i].rows)
    }

    /** A sheet has been created or selected. */
    predicate HasSheet()
      reads this
    {
      active.Some? && active.value < |sheets|
    }

    /** The row handle refers to a row present in its sheet. */
    predicate Holds(row: RowRef)
      reads this
    {
      row.sheet < |sheets| && row.index in sheets[row.sheet].rows
    }

    function ActiveRows(): (rows: map<int, Row>)
      reads this
      requires HasSheet()
    {
      sheets[active.value].rows
    }

    /** Create(filepath): a new, empty workbook bound to `filepath`. */
    constructor Create(filepath: string)
      ensures Valid()
      ensures filePath == filepath && sheets == [] && active == None
    {
      filePath := filepath;
      sheets := [];
      active := None;
    }

    /** Open(filePath): the workbook the file holds, given here as `contents`; no sheet is active yet. */
    constructor Open(filepath: string, contents: seq<Sheet>)
      requires forall i :: 0 <= i < |contents| ==> ReadableRows(contents[i].rows)
      ensures Valid()
      ensures filePath == filepath && sheets == contents && active == None
    {
      filePath := filepath;
      sheets := contents;
      active := None;
    }

    /** CreateSheet(name): a new, empty sheet at the end, which becomes the active sheet. */
    method CreateSheet(name: string)
      requires Valid()
      modifies this
      ensures Valid() && HasSheet()
      ensures sheets == old(sheets) + [Sheet(name, map[])]
      ensures active == Some(|old(sheets)|) && filePath == old(filePath)
    {
      sheets := sheets + [Sheet(name, map[])];
      active := Some(|sheets| - 1);
    }

    /** SelectSheet(no): the sheet at position `no` becomes the active sheet. */
    method SelectSheet(no: int)
      requires Valid() && 0 <= no < |sheets|
      modifies this
      ensures Valid() && HasSheet()
      ensures active == Some(no) && sheets == old(sheets) && filePath == old(filePath)
    {
      active := Some(no);
    }

    /** CreateRow(no): a new, empty row at `no` in the active sheet, replacing any row there. */
    method CreateRow(no: int) returns (row: RowRef)
      requires Valid() && HasSheet()
      modifies this
      ensures Valid() && HasSheet() && Holds(row)
      ensures row == RowRef(old(active).value, no)
      ensures ActiveRows() == CreateRowIn(old(ActiveRows()), no)
      ensures sheets == old(sheets)[row.sheet := old(sheets)[row.sheet].(rows := ActiveRows())]
      ensures active == old(active) && filePath == old(filePath)
    {
      var i := active.value;
      sheets := sheets[i := sheets[i].(rows := CreateRowIn(sheets[i].rows, no))];
      row := RowRef(i, no);
    }

    /** GetRow(no): the row at `no` in the active sheet, or None (null) when absent; nothing is created. */
    function GetRow(no: int): (row: Option<RowRef>)
      reads this
      requires HasSheet()
      ensures row.Some? <==> no in ActiveRows()
      ensures row.Some? ==> row.value == RowRef(active.value, no) && Holds(row.value)
    {
      RowSlot(active.value, ActiveRows(), no)
    }

    /**
     * SetValue(IRow, col, value): the cell at `col` of the handle's row is
     * reused when present and created otherwise, then given the text. The
     * handle's sheet need not be the active one.
     */
    method SetValue(row: RowRef, col: int, value: string)
      requires Valid() && Holds(row)
      modifies this
      ensures Valid() && Holds(row)
      ensures sheets == old(sheets)[row.sheet :=
        old(sheets)[row.sheet].(rows := WriteInRow(old(sheets)[row.sheet].rows, row.index, col, value))]
      ensures active == old(active) && filePath == old(filePath)
    {
      var s := sheets[row.sheet];
      sheets := sheets[row.sheet := s.(rows := WriteInRow(s.rows, row.index, col, value))];
    }

    /**
     * SetValue(row, col, value, style) as written: CreateRow and CreateCell
     * are called unconditionally, so the row is replaced by one holding just
     * the written cell; the style is assigned only when one is given.
     */
    method SetValueAt(row: int, col: int, value: string, style: Option<Style>)
      requires Valid() && HasSheet()
      modifies this
      ensures Valid() && HasSheet()
      ensures active == old(active) && filePath == old(filePath)
      ensures ActiveRows() == WriteAt(old(ActiveRows()), row, col, value, style)
      ensures sheets == old(sheets)[active.value := old(sheets)[active.value].(rows := ActiveRows())]
    {
      var rowobj := CreateRow(row);
      var cell := SetText(NewCell, value);
      if style.Some? {
        cell := cell.(style := style);
      }
      var s := sheets[rowobj.sheet];
      sheets := sheets[rowobj.sheet := s.(rows := s.rows[row := s.rows[row][col := cell]])];
    }

    /**
     * SetValue(row, col, value, style) as evidently intended: the row is
     * created only when absent, and the cell is written through the IRow
     * overload, so the other cells of the row survive.
     */
    method SetValueKeepingRow(row: int, col: int, value: string, style: Option<Style>)
      requires Valid() && HasSheet()
      modifies this
      ensures Valid() && HasSheet()
      ensures active == old(active) && filePath == old(filePath)
      ensures ActiveRows() == WriteAtKeepingRow(old(ActiveRows()), row, col, value, style)
      ensures sheets == old(sheets)[active.value := old(sheets)[active.value].(rows := ActiveRows())]
    {
      var rowobj := GetRow(row);
      if rowobj.None? {
        var created := CreateRow(row);
        rowobj := Some(created);
      }
      SetValue(rowobj.value, col, value);
      if style.Some? {
        var s := sheets[rowobj.value.sheet];
        var cell := s.rows[row][col];
        StyleIgnored(cell, cell.cellType, style);
        sheets := sheets[rowobj.value.sheet := s.(rows := s.rows[row := s.rows[row][col := cell.(style := style)]])];
      }
    }

    /**
     * GetValue(row, col): None-valued (null) when the row or the cell is
     * absent in the active sheet; otherwise the cell resolved through its own
     * tag. Reading changes nothing.
     */
    function GetValue(row: int, col: int): (v: Value)
      reads this
      requires Valid() && HasSheet()
      ensures row !in ActiveRows() || col !in ActiveRows()[row] ==> v == Null
      ensures row in ActiveRows() && col in ActiveRows()[row] ==>
        var cell := ActiveRows()[row][col];
        Readable(cell) && v == CellValue(cell, cell.cellType)
    {
      ValueAt(ActiveRows(), row, col)
    }

    /**
     * GetRows(): the active sheet's rows from FirstRowNum to LastRowNum
     * inclusive, in ascending order, a gap giving None (null). Every row
     * present is among them.
     */
    method GetRows() returns (rows: seq<Option<RowRef>>)
      requires HasSheet()
      ensures |rows| == LastRowNum(ActiveRows()) - FirstRowNum(ActiveRows()) + 1
      ensures forall k :: 0 <= k < |rows| ==>
        rows[k] == RowSlot(active.value, ActiveRows(), FirstRowNum(ActiveRows()) + k)
      ensures forall i :: i in ActiveRows() ==>
        var k := i - FirstRowNum(ActiveRows());
        0 <= k < |rows| && rows[k] == Some(RowRef(active.value, i))
    {
      var first := FirstRowNum(ActiveRows());
      var last := LastRowNum(ActiveRows());
      rows := [];
      var i := first;
      while i <= last
        invariant first <= i <= last + 1
        invariant |rows| == i - first
        invariant forall k :: 0 <= k < |rows| ==> rows[k] == RowSlot(active.value, ActiveRows(), first + k)
      {
        rows := rows + [GetRow(i)];
        i := i + 1;
      }
    }

    /**
     * GetCells(row): the cells at columns 0 .. LastCellNum - 1 of the row, in
     * order, an absent cell giving None (null); nothing when LastCellNum <= 0.
     * Every cell present at a column >= 0 is among them.
     */
    method GetCells(row: RowRef) returns (cells: seq<Option<Cell>>)
      requires Holds(row)
      ensures var r := sheets[row.sheet].rows[row.index];
        |cells| == (if LastCellNum(r) <= 0 then 0 else LastCellNum(r))
      ensures var r := sheets[row.sheet].rows[row.index];
        forall k :: 0 <= k < |cells| ==> cells[k] == CellSlot(r, k)
      ensures var r := sheets[row.sheet].rows[row.index];
        forall c :: c in r && 0 <= c ==> c < |cells| && cells[c] == Some(r[c])
    {
      var r := sheets[row.sheet].rows[row.index];
      var cellCount := LastCellNum(r);
      cells := [];
      var i := 0;
      while i < cellCount
        invariant 0 <= i <= (if cellCount <= 0 then 0 else cellCount)
        invariant |cells| == i
        invariant forall k :: 0 <= k < i ==> cells[k] == CellSlot(r, k)
      {
        cells := cells + [CellSlot(r, i)];
        i := i + 1;
      }
    }

    /**
     * CreateMyStyle(): the workbook's preset style: a solid royal-blue fill,
     * thin borders on all four sides, and a 14-point white font.
     */
    function CreateMyStyle(): (style: Style)
      ensures style.fillForegroundColor == RoyalBlue && style.fillPattern == SolidForeground
      ensures style.borderTop == Thin && style.borderLeft == Thin
      ensures style.borderRight == Thin && style.borderBottom == Thin
      ensures style.font.heightInPoints == 14 && style.font.color == White
    {
      Style(RoyalBlue, SolidForeground, Thin, Thin, Thin, Thin, Font(14, White))
    }
  }

  /**
   * The usage example at the top of Program.cs, up to the save: one sheet
   * "mySheet" holding "Item i" at (i, i) for i in 1..3, the second cell in
   * the preset style.
   */
  method Sample() returns (sheet: Sheet, style: Style)
    ensures sheet.name == "mySheet" && sheet.rows.Keys == {1, 2, 3}
    ensures ReadableRows(sheet.rows)
    ensures ValueAt(sheet.rows, 1, 1) == Str("Item 1")
    ensures ValueAt(sheet.rows, 2, 2) == Str("Item 2")
    ensures ValueAt(sheet.rows, 3, 3) == Str("Item 3")
    ensures forall i :: i in sheet.rows ==> sheet.rows[i].Keys == {i}
    ensures sheet.rows[2][2].style == Some(style)
    ensures sheet.rows[1][1].style == None && sheet.rows[3][3].style == None
    ensures style.fillForegroundColor == RoyalBlue && style.fillPattern == SolidForeground
    ensures style.borderTop == Thin && style.borderLeft == Thin
    ensures style.borderRight == Thin && style.borderBottom == Thin
    ensures style.font.heightInPoints == 14 && style.font.color == White
  {
    var xls := new MyExcelBook.Create("example.xlsx");
    xls.CreateSheet("mySheet");
    style := xls.CreateMyStyle();
    xls.SetValueAt(1, 1, "Item 1", None);
    xls.SetValueAt(2, 2, "Item 2", Some(style));
    xls.SetValueAt(3, 3, "Item 3", None);
    sheet := xls.sheets[0];
  }
}
