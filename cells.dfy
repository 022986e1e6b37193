/**
 * Spreadsheet cells and the resolution of a cell to the value a reader sees
 * (MyExcelBook._CellValue in Recipe_347/Program.cs).
 *
 * Numbers and dates are kept opaque: the library's double and DateTime values
 * and its date-format heuristic are not modelled, only carried.
 */
module Cells {
  import opened Wrappers

  /** The cell-type tags of the spreadsheet library. */
  datatype CellType = Unknown | Numeric | String | Formula | Blank | Boolean | Error

  /** A double, kept as its IEEE-754 bit pattern and never interpreted. */
  datatype Double = Double(bits: bv64)

  /** A date and time, kept as its tick count and never interpreted. */
  datatype DateTime = DateTime(ticks: int)

  /** Indexed colours; the indices themselves stay opaque. */
  datatype IndexedColor = RoyalBlue | White

  datatype FillPattern = NoFill | SolidForeground

  datatype BorderStyle = NoBorder | Thin

  datatype Font = Font(heightInPoints: nat, color: IndexedColor)

  /** A cell style, as far as the workbook's own preset sets it. */
  datatype Style = Style(
    fillForegroundColor: IndexedColor,
    fillPattern: FillPattern,
    borderTop: BorderStyle,
    borderLeft: BorderStyle,
    borderRight: BorderStyle,
    borderBottom: BorderStyle,
    font: Font)

  /**
   * A cell. `text`, `boolean`, `number` and `date` are what the library's
   * typed getters return (for a formula cell: its cached result);
   * `dateFormatted` stands for the library's date-format test;
   * `cachedResultType` is the tag of a formula's cached result; a style of
   * None is the workbook's default style.
   */
  datatype Cell = Cell(
    cellType: CellType,
    text: string,
    boolean: bool,
    number: Double,
    date: DateTime,
    dateFormatted: bool,
    cachedResultType: CellType,
    formula: string,
    style: Option<Style>)

  /** What reading a cell yields: the source's `object`, with Null for null. */
  datatype Value = Null | Str(s: string) | Bool(b: bool) | Num(n: Double) | Date(d: DateTime)

  /** The tag the switch dispatches on: the declared tag, unless that is Unknown. */
  function EffectiveType(cell: Cell, declared: CellType): (t: CellType)
  {
    if declared == Unknown then cell.cellType else declared
  }

  /** The tag resolution finally settles on: a Formula tag is replaced, once, by the cached result's. */
  function FinalType(cell: Cell, declared: CellType): (t: CellType)
  {
    var t := EffectiveType(cell, declared);
    if t == Formula then EffectiveType(cell, cell.cachedResultType) else t
  }

  /** Resolution terminates: it does not hit the Formula case twice. */
  predicate Resolves(cell: Cell, declared: CellType)
  {
    FinalType(cell, declared) != Formula
  }

  /** The cached result type of a formula names a value, not a formula and not Unknown. */
  predicate WellFormed(cell: Cell)
  {
    cell.cachedResultType != Formula && cell.cachedResultType != Unknown
  }

  /** Reading the cell through its own tag terminates. */
  predicate Readable(cell: Cell)
  {
    Resolves(cell, cell.cellType)
  }

  /**
   * _CellValue(cell, type): resolve `cell` under the declared tag. A formula
   * is resolved again under its cached result type; a tag the switch does not
   * handle gives null. The only strings it yields are the cell's string value
   * and the empty string of a blank cell: never the formula text.
   */
  function CellValue(cell: Cell, declared: CellType): (r: Value)
    requires Resolves(cell, declared)
    ensures r == Null <==> FinalType(cell, declared) in {Unknown, Error}
    ensures r.Str? ==> r.s == cell.text || r.s == ""
    decreases if EffectiveType(cell, declared) == Formula then 1 else 0
  {
    match EffectiveType(cell, declared)
    case String => Str(cell.text)
    case Boolean => Bool(cell.boolean)
    case Numeric => if cell.dateFormatted then Date(cell.date) else Num(cell.number)
    case Formula => CellValue(cell, cell.cachedResultType)
    case Blank => Str("")
    case _ => Null
  }

  /** A String cell reads as its text, a Boolean cell as its flag, a Blank cell as "" (never null). */
  lemma SimpleTags(cell: Cell, declared: CellType)
    ensures EffectiveType(cell, declared) == String ==>
      Resolves(cell, declared) && CellValue(cell, declared) == Str(cell.text)
    ensures EffectiveType(cell, declared) == Boolean ==>
      Resolves(cell, declared) && CellValue(cell, declared) == Bool(cell.boolean)
    ensures EffectiveType(cell, declared) == Blank ==>
      Resolves(cell, declared) && CellValue(cell, declared) == Str("")
  {
  }

  /** A Numeric cell reads as a date exactly when it is date-formatted, otherwise as its number. */
  lemma NumericTag(cell: Cell, declared: CellType)
    requires EffectiveType(cell, declared) == Numeric
    ensures Resolves(cell, declared)
    ensures CellValue(cell, declared).Date? <==> cell.dateFormatted
    ensures cell.dateFormatted ==> CellValue(cell, declared) == Date(cell.date)
    ensures !cell.dateFormatted ==> CellValue(cell, declared) == Num(cell.number)
  {
  }

  /** A formula reads as the cell read under its cached result type. */
  lemma FormulaUsesCachedType(cell: Cell, declared: CellType)
    requires Resolves(cell, declared) && EffectiveType(cell, declared) == Formula
    ensures Resolves(cell, cell.cachedResultType)
    ensures EffectiveType(cell, cell.cachedResultType) != Formula
    ensures CellValue(cell, declared) == CellValue(cell, cell.cachedResultType)
  {
  }

  /** The formula text never influences what a cell reads as. */
  lemma FormulaTextIgnored(cell: Cell, declared: CellType, formula: string)
    requires Resolves(cell, declared)
    ensures Resolves(cell.(formula := formula), declared)
    ensures CellValue(cell.(formula := formula), declared) == CellValue(cell, declared)
  {
  }

  /** The fill, borders and font of a style never influence what a cell reads as. */
  lemma StyleIgnored(cell: Cell, declared: CellType, style: Option<Style>)
    requires Resolves(cell, declared)
    ensures Resolves(cell.(style := style), declared)
    ensures CellValue(cell.(style := style), declared) == CellValue(cell, declared)
  {
  }

  /** A declared tag of Unknown defers to the cell's own tag. */
  lemma UnknownDefers(cell: Cell)
    ensures Resolves(cell, Unknown) <==> Resolves(cell, cell.cellType)
    ensures Resolves(cell, Unknown) ==> CellValue(cell, Unknown) == CellValue(cell, cell.cellType)
  {
  }

  /** A well-formed cell resolves under every declared tag. */
  lemma WellFormedResolves(cell: Cell, declared: CellType)
    requires WellFormed(cell)
    ensures Resolves(cell, declared)
  {
  }

  /** Reading a cell through its own tag terminates exactly when it is not a formula or its cached type is well-formed. */
  lemma ReadableIff(cell: Cell)
    ensures Readable(cell) <==> (cell.cellType == Formula ==> WellFormed(cell))
  {
  }

  /**
   * Where resolution does not terminate, the Formula case is taken and the
   * recursive call it makes is again one that does not terminate.
   */
  lemma UnresolvedRecursesAgain(cell: Cell, declared: CellType)
    requires !Resolves(cell, declared)
    ensures EffectiveType(cell, declared) == Formula
    ensures !Resolves(cell, cell.cachedResultType)
  {
  }

  /** ICell.SetCellValue(string): a formula keeps its formula and caches the string; any other cell becomes a String cell. */
  function SetText(cell: Cell, value: string): (c: Cell)
    ensures Readable(c) && CellValue(c, c.cellType) == Str(value)
    ensures c.cellType == (if cell.cellType == Formula then Formula else String)
    ensures c.style == cell.style && c.formula == cell.formula
  {
    if cell.cellType == Formula then cell.(text := value, cachedResultType := String)
    else cell.(cellType := String, text := value)
  }

  /** The blank cell IRow.CreateCell puts in place, with the default style. */
  const NewCell := Cell(Blank, "", false, Double(0), DateTime(0), false, Blank, "", None)
}
