/** A workbook holding worksheets, and a worksheet as a dictionary from
    1-based (row, column) to cell, as the spreadsheet library keeps it. */
module Sheets {
  import opened Styles
  import opened Passes

  class Worksheet {
    var title: string
    var cells: map<(int, int), Cell>
    /** The number of rows appended so far; the next append writes the row after it. */
    var currentRow: int
    var conditionalFormats: seq<ConditionalFormat>

    /** A cell that was never stored reads as a fresh one. */
    function At(r: int, c: int): Cell
      reads this
    {
      if (r, c) in cells then cells[(r, c)] else EmptyCell
    }

    constructor (title: string)
      ensures this.title == title && currentRow == 0 && conditionalFormats == []
      ensures forall r, c :: At(r, c) == EmptyCell
    {
      this.title := title;
      cells := map[];
      currentRow := 0;
      conditionalFormats := [];
    }

    /** Writes `values` into the next row, from column 1 on, each into a
        fresh cell. */
    method Append(values: seq<Value>)
      modifies this
      ensures title == old(title) && conditionalFormats == old(conditionalFormats)
      ensures currentRow == old(currentRow) + 1
      ensures forall r, c :: At(r, c) ==
                (if r == currentRow && 1 <= c <= |values| then EmptyCell.(value := values[c - 1])
                 else old(At(r, c)))
    {
      var row := currentRow + 1;
      currentRow := row;
      var j := 0;
      while j < |values|
        invariant 0 <= j <= |values|
        invariant title == old(title) && conditionalFormats == old(conditionalFormats)
        invariant currentRow == row
        invariant forall r, c :: At(r, c) ==
                    (if r == row && 1 <= c <= j then EmptyCell.(value := values[c - 1])
                     else old(At(r, c)))
      {
        cells := cells[(row, j + 1) := EmptyCell.(value := values[j])];
        j := j + 1;
      }
    }

    /** Visits the cells of `step.range` row by row and restyles each;
        every other cell, and every other field, stays as it was. */
    method FormatRange(step: Step)
      modifies this
      ensures title == old(title) && currentRow == old(currentRow)
      ensures conditionalFormats == old(conditionalFormats)
      ensures forall r, c :: At(r, c) == StepAt(step, r, c, old(At(r, c)))
    {
      var rg := step.range;
      var r := rg.minRow;
      while r <= rg.maxRow
        invariant rg.minRow <= r && (r <= rg.maxRow + 1 || r == rg.minRow)
        invariant title == old(title) && currentRow == old(currentRow)
        invariant conditionalFormats == old(conditionalFormats)
        invariant forall i, j :: At(i, j) ==
                    (if rg.minRow <= i < r && rg.minCol <= j <= rg.maxCol then Restyle(step.pass, i, j, old(At(i, j)))
                     else old(At(i, j)))
      {
        var c := rg.minCol;
        while c <= rg.maxCol
          invariant rg.minCol <= c && (c <= rg.maxCol + 1 || c == rg.minCol)
          invariant title == old(title) && currentRow == old(currentRow)
          invariant conditionalFormats == old(conditionalFormats)
          invariant forall i, j :: At(i, j) ==
                      (if (rg.minRow <= i < r && rg.minCol <= j <= rg.maxCol) || (i == r && rg.minCol <= j < c) then
                         Restyle(step.pass, i, j, old(At(i, j)))
                       else old(At(i, j)))
        {
          cells := cells[(r, c) := Restyle(step.pass, r, c, At(r, c))];
          c := c + 1;
        }
        r := r + 1;
      }
    }

    /** Adds one conditional-format rule over `range`. */
    method AddConditionalFormat(range: CellRange, rule: ColorScaleRule)
      modifies this
      ensures title == old(title) && currentRow == old(currentRow) && cells == old(cells)
      ensures conditionalFormats == old(conditionalFormats) + [ConditionalFormat(range, rule)]
    {
      conditionalFormats := conditionalFormats + [ConditionalFormat(range, rule)];
    }
  }

  class Workbook {
    var sheets: seq<Worksheet>

    constructor ()
      ensures sheets == []
    {
      sheets := [];
    }

    /** Adds a new, empty worksheet at the end and returns it. */
    method CreateSheet(title: string) returns (sheet: Worksheet)
      modifies this
      ensures fresh(sheet) && sheets == old(sheets) + [sheet]
      ensures sheet.title == title && sheet.currentRow == 0 && sheet.conditionalFormats == []
      ensures forall r, c :: sheet.At(r, c) == EmptyCell
    {
      sheet := new Worksheet(title);
      sheets := sheets + [sheet];
    }
  }
}
