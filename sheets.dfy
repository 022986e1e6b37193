/**
 * A sheet as a sparse map from row index to row, a row as a sparse map from
 * column index to cell, and the row and cell operations of the spreadsheet
 * library that MyExcelBook relies on (Recipe_347/Program.cs).
 *
 * The library is not part of this model; where its behaviour matters it is
 * stated here as an explicit assumption:
 *  - CreateRow(i) puts a new, empty row at i, replacing a row already there;
 *  - CreateCell(c) puts a new blank cell at c, replacing a cell already there;
 *  - FirstRowNum and LastRowNum are the least and greatest row index, and both
 *    are 0 on a sheet without rows;
 *  - LastCellNum is one past the greatest column index, and -1 on a row
 *    without cells.
 */
module Sheets {
  import opened Wrappers
  import opened Cells

  type Row = map<int, Cell>

  datatype Sheet = Sheet(name: string, rows: map<int, Row>)

  /** A row handle (IRow): the sheet it belongs to, by position, and its row index. */
  datatype RowRef = RowRef(sheet: nat, index: int)

  /** Every cell present can be read through its own tag. */
  predicate ReadableRows(rows: map<int, Row>)
  {
    forall r, c :: r in rows && c in rows[r] ==> Readable(rows[r][c])
  }

  predicate IsLeast(m: int, s: set<int>)
  {
    m in s && forall x :: x in s ==> m <= x
  }

  predicate IsGreatest(m: int, s: set<int>)
  {
    m in s && forall x :: x in s ==> x <= m
  }

  /** A set of integers that has an element has a least one. */
  lemma {:induction false} LeastExists(s: set<int>)
    requires exists x :: x in s
    ensures exists m :: IsLeast(m, s)
    decreases s
  {
    var y :| y in s;
    var rest := s - {y};
    if exists x :: x in rest {
      LeastExists(rest);
      var m :| IsLeast(m, rest);
      var least := if y < m then y else m;
      forall x | x in s
        ensures least <= x
      {
        if x != y { assert x in rest; }
      }
      assert IsLeast(least, s);
    } else {
      assert forall x :: x in s ==> x == y || x in rest;
      assert IsLeast(y, s);
    }
  }

  /** A set of integers that has an element has a greatest one. */
  lemma {:induction false} GreatestExists(s: set<int>)
    requires exists x :: x in s
    ensures exists m :: IsGreatest(m, s)
    decreases s
  {
    var y :| y in s;
    var rest := s - {y};
    if exists x :: x in rest {
      GreatestExists(rest);
      var m :| IsGreatest(m, rest);
      var greatest := if m < y then y else m;
      forall x | x in s
        ensures x <= greatest
      {
        if x != y { assert x in rest; }
      }
      assert IsGreatest(greatest, s);
    } else {
      assert forall x :: x in s ==> x == y || x in rest;
      assert IsGreatest(y, s);
    }
  }

  function Least(s: set<int>): (m: int)
    requires exists x :: x in s
    ensures m in s && forall x :: x in s ==> m <= x
  {
    LeastExists(s);
    var m :| IsLeast(m, s); m
  }

  function Greatest(s: set<int>): (m: int)
    requires exists x :: x in s
    ensures m in s && forall x :: x in s ==> x <= m
  {
    GreatestExists(s);
    var m :| IsGreatest(m, s); m
  }

  /** ISheet.FirstRowNum: the least row index present; 0 when there is none. */
  function FirstRowNum(rows: map<int, Row>): (n: int)
    ensures (forall i :: i !in rows) ==> n == 0
    ensures (exists i :: i in rows) ==> n in rows && forall i :: i in rows ==> n <= i
  {
    if exists i :: i in rows then Least(rows.Keys) else 0
  }

  /** ISheet.LastRowNum: the greatest row index present; 0 when there is none. */
  function LastRowNum(rows: map<int, Row>): (n: int)
    ensures (forall i :: i !in rows) ==> n == 0
    ensures (exists i :: i in rows) ==> n in rows && forall i :: i in rows ==> i <= n
    ensures FirstRowNum(rows) <= n
  {
    if exists i :: i in rows then Greatest(rows.Keys) else 0
  }

  /** IRow.LastCellNum: one past the greatest column index present; -1 when there is none. */
  function LastCellNum(row: Row): (n: int)
    ensures (forall c :: c !in row) ==> n == -1
    ensures (exists c :: c in row) ==> n - 1 in row && forall c :: c in row ==> c < n
  {
    if exists c :: c in row then Greatest(row.Keys) + 1 else -1
  }

  /** ISheet.GetRow(i) as a handle on sheet `sheet`: None (null) when no row is there. */
  function RowSlot(sheet: nat, rows: map<int, Row>, index: int): (slot: Option<RowRef>)
  {
    if index in rows then Some(RowRef(sheet, index)) else None
  }

  /** IRow.GetCell(c): None (null) when no cell is there. */
  function CellSlot(row: Row, col: int): (slot: Option<Cell>)
  {
    if col in row then Some(row[col]) else None
  }

  /** ISheet.CreateRow(i): a new, empty row at i, replacing any row already there. */
  function CreateRowIn(rows: map<int, Row>, index: int): (rows': map<int, Row>)
  {
    rows[index := map[]]
  }

  /** Reading (r, c): null when the row or the cell is absent, else the cell resolved through its own tag. */
  function ValueAt(rows: map<int, Row>, r: int, c: int): (v: Value)
    requires r in rows && c in rows[r] ==> Readable(rows[r][c])
  {
    if r in rows && c in rows[r] then CellValue(rows[r][c], rows[r][c].cellType) else Null
  }

  /**
   * SetValue(IRow, col, value): the cell at (r, c) is reused when present and
   * created blank otherwise, then given the text. The row keeps its other
   * cells, every other row is unchanged, and a reused cell keeps its style
   * and formula.
   */
  function WriteInRow(rows: map<int, Row>, r: int, c: int, value: string): (rows': map<int, Row>)
    requires r in rows
    ensures rows'.Keys == rows.Keys
    ensures rows'[r].Keys == rows[r].Keys + {c}
    ensures Readable(rows'[r][c]) && ValueAt(rows', r, c) == Str(value)
    ensures c in rows[r] ==>
      rows'[r][c].style == rows[r][c].style && rows'[r][c].formula == rows[r][c].formula
    ensures c !in rows[r] ==> rows'[r][c].style == None
    ensures forall i :: i in rows && i != r ==> rows'[i] == rows[i]
    ensures forall i, j :: i in rows && j in rows[i] && (i != r || j != c) ==>
      i in rows' && j in rows'[i] && rows'[i][j] == rows[i][j]
    ensures ReadableRows(rows) ==> ReadableRows(rows')
  {
    var row := rows[r];
    var cell := if c in row then row[c] else NewCell;
    rows[r := row[c := SetText(cell, value)]]
  }

  /**
   * SetValue(row, col, value, style) as written: CreateRow(row) replaces the
   * row with an empty one, CreateCell(col) adds a blank cell, the text is set,
   * and the style is assigned only when one is given. The row ends up holding
   * the written cell alone; every other row is unchanged.
   */
  function WriteAt(rows: map<int, Row>, r: int, c: int, value: string, style: Option<Style>): (rows': map<int, Row>)
    ensures rows'.Keys == rows.Keys + {r}
    ensures rows'[r].Keys == {c}
    ensures Readable(rows'[r][c]) && ValueAt(rows', r, c) == Str(value)
    ensures rows'[r][c].style == style
    ensures forall i :: i in rows && i != r ==> rows'[i] == rows[i]
    ensures ReadableRows(rows) ==> ReadableRows(rows')
  {
    var created := CreateRowIn(rows, r);
    var cell := SetText(NewCell, value);
    var styled := if style.Some? then cell.(style := style) else cell;
    created[r := created[r][c := styled]]
  }

  /**
   * SetValue(row, col, value, style) as evidently intended: the row is
   * created only when absent and the cell is written through the IRow
   * overload, so every other cell of the sheet keeps its value. The style is
   * assigned when one is given; otherwise a reused cell keeps its own.
   */
  function WriteAtKeepingRow(rows: map<int, Row>, r: int, c: int, value: string, style: Option<Style>): (rows': map<int, Row>)
    ensures rows'.Keys == rows.Keys + {r}
    ensures rows'[r].Keys == (if r in rows then rows[r].Keys else {}) + {c}
    ensures Readable(rows'[r][c]) && ValueAt(rows', r, c) == Str(value)
    ensures rows'[r][c].style ==
      if style.Some? then style else if r in rows && c in rows[r] then rows[r][c].style else None
    ensures forall i :: i in rows && i != r ==> rows'[i] == rows[i]
    ensures forall i, j :: i in rows && j in rows[i] && (i != r || j != c) ==>
      i in rows' && j in rows'[i] && rows'[i][j] == rows[i][j]
    ensures ReadableRows(rows) ==> ReadableRows(rows')
  {
    var created := if r in rows then rows else CreateRowIn(rows, r);
    var written := WriteInRow(created, r, c, value);
    if style.Some? then
      var cell := written[r][c];
      StyleIgnored(cell, cell.cellType, style);
      written[r := written[r][c := cell.(style := style)]]
    else
      written
  }

  /** Two writes into one row through WriteAt: the first is lost; WriteAtKeepingRow keeps it. */
  lemma WriteAtLosesEarlierCell()
    ensures ValueAt(WriteAt(WriteAt(map[], 1, 1, "Item 1", None), 1, 2, "Item 2", None), 1, 1) == Null
    ensures ValueAt(WriteAtKeepingRow(WriteAtKeepingRow(map[], 1, 1, "Item 1", None), 1, 2, "Item 2", None), 1, 1)
      == Str("Item 1")
  {
  }

  /**
   * With rows at 1 and 3 only, row enumeration runs from the first row present
   * to the last: three entries, the middle one a gap.
   */
  lemma RowsFromFirstToLast(rows: map<int, Row>)
    requires rows.Keys == {1, 3}
    ensures FirstRowNum(rows) == 1 && LastRowNum(rows) == 3
    ensures seq(LastRowNum(rows) - FirstRowNum(rows) + 1, k => RowSlot(0, rows, FirstRowNum(rows) + k))
      == [Some(RowRef(0, 1)), None, Some(RowRef(0, 3))]
  {
    assert 1 in rows && 3 in rows && 2 !in rows;
    assert FirstRowNum(rows) == 1;
    assert LastRowNum(rows) == 3;
    var slots := seq(3, k => RowSlot(0, rows, 1 + k));
    assert slots[0] == Some(RowRef(0, 1)) && slots[1] == None && slots[2] == Some(RowRef(0, 3));
  }
}
