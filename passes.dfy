/** The style passes of the conversion, each as what it does to one cell
    and the rectangle of cells it visits. */
module Passes {
  import opened Styles

  function ThinIf(b: bool): Side {
    if b then Thin else NoSide
  }

  /** The outer-boundary case analysis for a report of `n` rows and `C`
      columns, cases tried in order, first match wins; None leaves the
      cell's border as it is. Every assigned border replaces the old one
      whole. `topRightCol` is the column the top-right test compares with. */
  function OuterBorderCase(r: int, c: int, n: int, C: int, topRightCol: int): (b: Option<Border>)
    ensures n >= 0 && 1 <= r <= n + 1 && 1 <= c <= C ==>
      (b.Some? <==> r == 1 || r == n + 1 || c == 1 || c == C)
    ensures n >= 0 && 1 <= r <= n + 1 && 1 <= c <= C && b.Some? ==>
      b.value == Border(
        ThinIf(c == 1),
        ThinIf(c != 1 && (c == C || (r == 1 && c == topRightCol))),
        ThinIf(r == 1 && (c == 1 || c == topRightCol || c != C)),
        ThinIf(r == n + 1 && (n >= 1 || (c == C && c != 1 && c != topRightCol))))
  {
    if r == 1 && c == 1 then Some(Border(Thin, NoSide, Thin, NoSide))
    else if r == 1 && c == topRightCol then Some(Border(NoSide, Thin, Thin, NoSide))
    else if r == n + 1 && c == 1 then Some(Border(Thin, NoSide, NoSide, Thin))
    else if r == n + 1 && c == C then Some(Border(NoSide, Thin, NoSide, Thin))
    else if 1 <= r <= n && c == 1 then Some(Border(Thin, NoSide, NoSide, NoSide))
    else if 1 <= r <= n && c == C then Some(Border(NoSide, Thin, NoSide, NoSide))
    else if r == 1 && 1 <= c <= C then Some(Border(NoSide, NoSide, Thin, NoSide))
    else if r == n + 1 && 1 <= c <= C then Some(Border(NoSide, NoSide, NoSide, Thin))
    else None
  }

  /** The case analysis as the conversion performs it: the top-right test
      compares the column with the number of rows `n`. */
  function OuterBorderFor(r: int, c: int, n: int, C: int): Option<Border> {
    OuterBorderCase(r, c, n, C, n)
  }

  /** Which sides the outer-boundary pass draws on each cell of rows 1..n+1
      and columns 1..C: every boundary cell gets a border, interior cells
      keep theirs. The left side is drawn on exactly column 1; the right
      side on column C and, in row 1, also on column n; the top side on
      row 1 except at column C when C differs from both 1 and n; the bottom
      side on row n+1, except on a single-row report, where row 1 is also
      row n+1 and only (1, C) gets it. */
  lemma OuterBorderSides(r: int, c: int, n: int, C: int)
    requires n >= 0 && 1 <= r <= n + 1 && 1 <= c <= C
    ensures OuterBorderFor(r, c, n, C).Some? <==> (r == 1 || r == n + 1 || c == 1 || c == C)
    ensures OuterBorderFor(r, c, n, C).Some? ==>
      OuterBorderFor(r, c, n, C).value == Border(
        ThinIf(c == 1),
        ThinIf(c != 1 && (c == C || (r == 1 && c == n))),
        ThinIf(r == 1 && (c == 1 || c == n || c != C)),
        ThinIf(r == n + 1 && (n >= 1 || (c == C && c != 1))))
  {
  }

  /** The case analysis with the top-right test against the number of
      columns. On a report of at least one row and two columns it draws
      exactly the rectangle around rows 1..n+1 and columns 1..C. */
  function IntendedOuterBorderFor(r: int, c: int, n: int, C: int): (b: Option<Border>)
    ensures n >= 1 && C >= 2 && 1 <= r <= n + 1 && 1 <= c <= C ==>
      b == if r == 1 || r == n + 1 || c == 1 || c == C then
             Some(Border(ThinIf(c == 1), ThinIf(c == C), ThinIf(r == 1), ThinIf(r == n + 1)))
           else None
  {
    OuterBorderCase(r, c, n, C, C)
  }

  /** With the code as written, whenever C differs from n the top-right
      cell (1, C) gets only a right side: the top line of the header stops
      one cell short. */
  lemma TopRightCornerAsWritten(n: int, C: int)
    requires n >= 1 && C >= 2 && C != n
    ensures OuterBorderFor(1, C, n, C) == Some(Border(NoSide, Thin, NoSide, NoSide))
    ensures IntendedOuterBorderFor(1, C, n, C) == Some(Border(NoSide, Thin, Thin, NoSide))
  {
  }

  /** A report of three classes has n = 6 rows and C = 5 columns. */
  lemma TopRightCornerExample()
    ensures OuterBorderFor(1, 5, 6, 5).value.top == NoSide
    ensures IntendedOuterBorderFor(1, 5, 6, 5).value.top == Thin
  {
  }

  /** What a pass does to one visited cell. */
  datatype Pass =
    | OuterBoundary(reportRows: int, reportCols: int)
    | SetSide(edge: Edge, style: Side)
    | HeaderStyle
    | SetNumberFormat(format: string)

  /** One visited cell after a pass; no pass changes a cell's value. */
  function Restyle(p: Pass, r: int, c: int, cell: Cell): (result: Cell)
    ensures result.value == cell.value
  {
    match p
    case OuterBoundary(n, C) =>
      (match OuterBorderFor(r, c, n, C)
       case Some(b) => cell.(border := b)
       case None => cell)
    case SetSide(e, s) => cell.(border := WithSide(cell.border, e, s))
    case HeaderStyle =>
      if r == 1 || c == 1 then cell.(font := HeaderFont, fill := HeaderColor)
      else cell.(font := DefaultFont)
    case SetNumberFormat(f) => cell.(numberFormat := f)
  }

  /** A pass together with the rectangle it visits, row by row. */
  datatype Step = Step(pass: Pass, range: CellRange)

  /** Cell (r, c) after a step: restyled if the step visits it, else as it was. */
  function StepAt(s: Step, r: int, c: int, cell: Cell): Cell {
    if s.range.Contains(r, c) then Restyle(s.pass, r, c, cell) else cell
  }

  /** Outer boundary: A1 to the last column of row n+1, every cell of the
      region once. */
  function OuterStep(n: int, C: int): Step {
    Step(OuterBoundary(n, C), CellRange(1, 1, n + 1, C))
  }

  /** The block the header pass reads: from A1 to column C of row C (the
      end row is the column count, as written). */
  function HeaderBlock(C: int): CellRange {
    CellRange(1, 1, C, C)
  }

  /** The first row of a block. */
  function FirstRow(block: CellRange): CellRange {
    CellRange(block.minRow, block.minCol, block.minRow, block.maxCol)
  }

  /** Thin bottom under the header: the pass visits only the first row of
      the header block, which is row 1, columns 1..C, whatever C is. */
  function HeaderStep(C: int): Step {
    Step(SetSide(Bottom, Thin), FirstRow(HeaderBlock(C)))
  }

  /** Thin left side down the support column, rows 1..n+1. */
  function SupportStep(n: int, supportCol: int): Step {
    Step(SetSide(Left, Thin), CellRange(1, supportCol, n + 1, supportCol))
  }

  /** Thin right side down the label column, A1 to A(n+1). */
  function LabelStep(n: int): Step {
    Step(SetSide(Right, Thin), CellRange(1, 1, n + 1, 1))
  }

  /** Thick top side along the divider row, columns 1..C. */
  function DividerStep(C: int, avgRow: int): Step {
    Step(SetSide(Top, Thick), CellRange(avgRow, 1, avgRow, C))
  }

  /** Fonts and fills over the same range as the outer boundary. */
  function FontStep(n: int, C: int): Step {
    Step(HeaderStyle, CellRange(1, 1, n + 1, C))
  }

  /** Four decimal places from B2 to the column before support, row n+1:
      the data rows, without the label column and the support column. */
  function NumberFormatStep(n: int, supportCol: int): Step {
    Step(SetNumberFormat(FloatPrec), CellRange(2, 2, n + 1, supportCol - 1))
  }

  /** The colour-scale range: the precision column to the column before
      support, row 1 to row `avgRow + 2`, two rows past the divider. */
  function GradientRange(precisionCol: int, avgRow: int, supportCol: int): CellRange {
    CellRange(1, precisionCol, avgRow + 2, supportCol - 1)
  }

  /** Every pass but the colour scale stays inside rows 1..n+1 and columns
      1..C, given a support column and a divider row within the report. */
  lemma StepsWithinRegion(n: int, C: int, supportCol: int, avgRow: int, r: int, c: int)
    requires 1 <= supportCol <= C && 2 <= avgRow <= n + 1
    requires !(1 <= r <= n + 1 && 1 <= c <= C)
    ensures !OuterStep(n, C).range.Contains(r, c) && !HeaderStep(C).range.Contains(r, c)
    ensures !SupportStep(n, supportCol).range.Contains(r, c) && !LabelStep(n).range.Contains(r, c)
    ensures !DividerStep(C, avgRow).range.Contains(r, c) && !FontStep(n, C).range.Contains(r, c)
    ensures !NumberFormatStep(n, supportCol).range.Contains(r, c)
  {
  }
}
