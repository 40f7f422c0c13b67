# Classification report to styled worksheet, in Dafny

This project models `convert_report2excel`, which turns a classification
report (a label column, score columns such as precision, recall and
f1-score, then `support`) into one styled worksheet of a workbook. The
function appends the report to a new sheet and then makes a fixed series of
style passes over the block of rows 1..n+1 and columns 1..C, for a report of
`n` rows and `C` columns:

- an outer boundary, chosen per cell by a first-match case analysis;
- a thin bottom side under the header row;
- a thin left side down the `support` column;
- a thin right side down the label column;
- a thick top side along the row of the first `accuracy` label, or failing
  that the first `micro avg` label, when there is one;
- a colour-scale rule (red 0.0, white 0.6, green 1.0) over the precision
  column to the column before `support`;
- bold Arial on light gray for the header row and label column, regular
  Arial elsewhere;
- four decimal places on rows 2..n+1, columns 2 to the column before
  `support`.

The model takes the worksheet as a dictionary from 1-based (row, column) to
a cell record: value, border (four sides, each absent, thin or thick), font,
fill and number format. Conditional formats are a list of
(range, rule) pairs.

Files:

- `grid.dfy` (module `GridCoordinates`): the coordinate generator
  `get_grid_coordinates`, as a method with nested loops.
- `styles.dfy` (module `Styles`): sides, borders, fonts, fills, values,
  cells, ranges and the colour-scale rule, with the constants of the source.
- `report.dfy` (module `Reports`): the report table, column lookup by name,
  the divider-row search, `avg_row`, and the cells that appending the report
  writes.
- `passes.dfy` (module `Passes`): the outer-boundary case analysis, what each
  pass does to one cell, and the ranges the passes visit.
- `sheets.dfy` (module `Sheets`): `Worksheet` and `Workbook` classes whose
  methods append a row, restyle a range in place, add a conditional format
  and add a sheet.
- `convert.dfy` (module `Convert`): the conversion, as a method proved
  against pure functions giving the sheet after each stage and the outcome.
- `properties.dfy` (module `Properties`): what the finished sheet holds.

`ConvertReport2Excel` states the whole new state: the workbook gains exactly
the new sheet; every cell equals `FinalCell(report, r, c)`; the conditional
formats equal `ConditionalFormats(report)`; and the outcome equals
`ConversionOutcome(report)`. The lemmas in `Properties` then say what
`FinalCell` is, border side by border side, font by font and format by
format.

Some consequences of the code, which the model keeps:

- The thick divider is the top side of the `accuracy` (or `micro avg`) row
  itself, sheet row `index + 2`.
- No cell value is changed after the rows are appended: no score is blanked
  and no support value is copied.
- The colour-scale range runs from row 1 to row `avg_row + 2`. Without a
  divider that is row n+4, past the last row.
- Besides the missing `support` and `precision` columns, two more inputs
  fail. A report with no columns fails at line 121. A report whose
  `support` column is column 1 fails at line 278. Both turn column number 0
  into a letter, which the spreadsheet library rejects.
- An error does not undo the passes that ran before it. The new sheet stays
  in the workbook with that partial formatting.

## Model

| member | source | states |
|---|---|---|
| GridCoordinates.GetGridCoordinates | convert_report2excel.py:58-61 | yields max(numRows,0)·max(numCols,0) pairs; the k-th is (startRow + k div numCols, startCol + k mod numCols), i.e. row-major order; a non-positive count yields nothing |
| GridCoordinates.InsideBlock | convert_report2excel.py:58-61 | every yielded pair lies in [startRow, startRow+numRows) × [startCol, startCol+numCols) |
| GridCoordinates.CoversBlock | convert_report2excel.py:58-61 | every pair of that block is yielded |
| Reports.FirstIndex | convert_report2excel.py:250-252 | None exactly when the element is absent; otherwise the position of its first occurrence |
| Reports.ColumnNumber | convert_report2excel.py:212 | the 1-based column of a name (`get_loc(...) + 1`), None exactly when the column is missing |
| Reports.Labels | convert_report2excel.py:249 | one label per data row; on a well-formed report with columns, the first value of each row |
| Reports.DividerRow | convert_report2excel.py:248-252 | present exactly when `accuracy` or `micro avg` is a label; the sheet row (index + 2) of the first `accuracy`, else of the first `micro avg`; always within rows 2..n+1 |
| Reports.AvgRow | convert_report2excel.py:245-268 | `avg_row` lies in 2..n+2; it is n+2 exactly when neither `accuracy` nor `micro avg` is a label (the caught IndexError), and otherwise the divider row |
| Reports.SheetRows | convert_report2excel.py:79-82 | the rows appended: a header row then the n data rows unchanged |
| Reports.WrittenCells | convert_report2excel.py:84-87 | after appending, row 1 holds the column names, data row k sits on sheet row k+2, nothing else holds a value, and every cell has default style |
| Styles.WithSide | convert_report2excel.py:202-209 | the rebuilt border has the chosen side set and the other three sides copied from the existing border |
| Passes.OuterBorderCase | convert_report2excel.py:124-191 | the first-match chain with the top-right test against any column t: on a region cell it assigns a border exactly on the boundary; left on column 1; right on column C ≠ 1 and, in row 1, on column t ≠ 1; top on row 1 except (1,C) when C is neither 1 nor t; bottom on row n+1 (on a one-row report only at (1,C), C ∉ {1, t}) |
| Passes.OuterBorderSides | convert_report2excel.py:124-191 | `OuterBorderFor`, the chain as written (t = n): for each region cell, which sides the first-match case analysis draws: left exactly on column 1; right on column C ≠ 1 and, in row 1, on column n ≠ 1; top on row 1 except (1,C) when C is neither 1 nor n; bottom on row n+1 (on a one-row report only at (1,C), C ≠ 1); interior cells unchanged |
| Passes.IntendedOuterBorderFor | convert_report2excel.py:134-141 | with the top-right test against C, a report of at least one row and two columns gets exactly the rectangle around the region |
| Passes.TopRightCornerAsWritten | convert_report2excel.py:134-141 | as written, when C ≠ n the cell (1,C) gets only a right side, while the intended test gives it top and right |
| Passes.TopRightCornerExample | convert_report2excel.py:134-141 | a three-class report (n = 6, C = 5) leaves (1,5) without a top side |
| Passes.StepsWithinRegion | convert_report2excel.py:116-311 | with the support column among columns 1..C and the divider among rows 2..n+1, no style pass visits a cell outside rows 1..n+1 × columns 1..C: `OuterStep` and `FontStep` (rows 1..n+1 × columns 1..C), `HeaderStep` (row 1 of the block A1 to column C of row C), `SupportStep` (the support column, rows 1..n+1), `LabelStep` (column 1, rows 1..n+1), `DividerStep` (the divider row, columns 1..C) and `NumberFormatStep` (rows 2..n+1 × columns 2..support−1) |
| Passes.Restyle | convert_report2excel.py:124-315 | no style pass changes a cell's value |
| Sheets.Worksheet.constructor | convert_report2excel.py:84 | a new sheet has the given title, no rows, no conditional formats and only default cells |
| Sheets.Worksheet.Append | convert_report2excel.py:86-87 | writes the values into fresh cells of the next row from column 1 on; every other cell stays as it was |
| Sheets.Worksheet.FormatRange | convert_report2excel.py:220-229 | every cell of the range is restyled by the pass from its existing state; every cell outside it and every other field is unchanged |
| Sheets.Worksheet.AddConditionalFormat | convert_report2excel.py:280 | appends exactly one (range, rule) pair; cells unchanged |
| Sheets.Workbook.constructor | convert_report2excel.py:324-325 | a new workbook has no sheets |
| Sheets.Workbook.CreateSheet | convert_report2excel.py:84 | appends one fresh, empty sheet with the given title |
| Convert.Bordered | convert_report2excel.py:89-209 | after the outer and header passes only borders have changed, only inside the region, and no side is thick |
| Convert.Delimited | convert_report2excel.py:211-268 | the support, label and divider passes change only borders, never a bottom side, nothing outside the region; the only thick side is the top of the divider row |
| Convert.Styled | convert_report2excel.py:282-315 | the font and number-format passes keep every value and border |
| Convert.ConversionOutcome | convert_report2excel.py:116-278 | the only errors are the missing `support` or `precision` column and column 0; success needs at least two columns |
| Convert.ConditionalFormats | convert_report2excel.py:270-280 | at most one conditional format, present exactly when the conversion succeeds, and always the red-white-green colour scale |
| Convert.FinalCell | convert_report2excel.py:84-315 | whichever stage the conversion reaches, every value is the one appended; the only thick side is the top of a cell on the divider row |
| Convert.ConvertReport2Excel | convert_report2excel.py:64-317 | the workbook gains exactly the new sheet; its cells, conditional formats and the outcome are those of the stage functions, including the partial sheet left by each error |
| Properties.SheetValues | convert_report2excel.py:79-93 | after the conversion, successful or not, row 1 holds the names and row k+2 data row k; the region is n+1 rows by C columns; nothing outside holds a value |
| Properties.OutsideRegionUntouched | convert_report2excel.py:89-315 | no pass touches a cell outside rows 1..n+1 × columns 1..C |
| Properties.BorderedCell | convert_report2excel.py:193-209 | after the outer and header passes, region cells carry the outer border with a thin bottom on row 1; nothing else changed |
| Properties.DelimitedCell | convert_report2excel.py:211-268 | the support, label and divider passes set left on the support column, right on column 1 and a thick top on the divider row, inside the region, keeping the other sides |
| Properties.StyledCell | convert_report2excel.py:283-315 | the font pass gives header row and label column bold Arial and gray fill, other region cells regular Arial with fill untouched; the format pass sets four decimals on rows 2..n+1 × columns 2..support−1 |
| Properties.FinalBorders | convert_report2excel.py:124-268 | every side of every region cell after all border passes: left on columns 1 and support; right on columns 1, C and (row 1) n; top thick on the divider row, else thin on row 1 except (1,C) when C ∉ {1, n}; bottom on rows 1 and n+1 |
| Properties.OuterBorderNeverThick | convert_report2excel.py:95-114 | the outer-boundary pass draws only thin sides |
| Properties.UnstyledBeforeFonts | convert_report2excel.py:89-268 | until the font pass runs, every cell keeps the default font, fill and number format |
| Properties.NoDividerWithoutAggregateRow | convert_report2excel.py:245-268 | with neither `accuracy` nor `micro avg`, `avg_row` stays n+2 and no cell anywhere has a thick side |
| Properties.FinalFontsAndFills | convert_report2excel.py:283-301 | on success, region cells in row 1 or column 1 are bold Arial on D9D9D9, other region cells regular Arial without fill, other cells default |
| Properties.FinalNumberFormat | convert_report2excel.py:303-315 | a cell has format 0.0000 exactly when the conversion succeeded and it lies in rows 2..n+1 and columns 2..support−1; otherwise General |
| Properties.Outcomes | convert_report2excel.py:116-278 | success exactly when precision and support exist and support is not column 1; each failure (no columns, no support, no precision, support in column 1) in the order the code meets them |
| Properties.FailedConversionUnstyled | convert_report2excel.py:211-278 | a failed conversion adds no colour scale and leaves fonts, fills and formats at their defaults; a missing support column also leaves no thick side and no left side beyond column 1 |
| Properties.ColourScaleRange | convert_report2excel.py:270-280 | on success exactly one colour scale: from the precision column to the column before support, rows 1..avg_row+2 (the first accuracy row, else the first micro avg row, else n+2), with stops 0.0 < 0.6 < 1.0 red, white, green |
| Properties.TwoClassLookups | convert_report2excel.py:245-252 | in the two-class example, support is column 5, precision column 2 and the divider row 4 |
| Properties.TwoClassExample | convert_report2excel.py:64-317 | the two-class example converts; divider on row 4; colour scale B1:D6; (1,5) boxed on four sides since n = C; row 7 blank |

## Left out

- `main` and the command line: listing the directory, reading CSV files,
  the progress bar, saving the workbook and argument parsing are I/O.
- The dictionary-input branch, a pandas transpose and reset of the index.
  Its `rename` result is discarded, so it renames nothing.
- A1-style references and `get_column_letter`: coordinates are integers.
  Only the two failures of turning column 0 into a letter are kept. The
  column limit of `get_column_letter` and the sheet's row limit (1048576,
  which `Worksheet.cell` enforces) are not modelled: a report of 1048576
  rows or more fails in the outer pass, while the model reports `Pass`.
- Reading a range through the sheet object creates default cells in it. A
  cell that was never stored reads as a default cell here, so this is not
  visible. The header range reaches down to row C in this way.
- `Sheets.Worksheet.Append`: the row counter counts appended rows. The
  library's counter is the highest row of any cell. The two agree on a
  fresh sheet.
- Sheet titles: `create_sheet` may choose or alter a title (an empty name,
  a name already taken). A title holding any of `\ * ? : / [ ]` makes it
  raise at line 84, before any sheet is added; sheet names come from file
  names, so a file such as `report[1].csv` fails this way. The model keeps
  the title it is given and never fails there.
- Fonts, fills and colours are reduced to what the code sets: Arial bold or
  not, one solid RGB fill, RGB strings. The colour interpolation itself is
  performed by the spreadsheet program and is not modelled.
- Properties.Outcomes, Convert.ConversionOutcome and
  Convert.ConvertReport2Excel: the library's refusal of a reversed range is
  not modelled. A report whose `precision` column comes after `support`
  (columns `class, support, precision`) raises at line 280, where the
  model reports `Pass`, records the range as computed and runs the font
  and number-format passes.
- `Reports.WellFormed`: repeated column names are excluded. A CSV reader
  renames repeats, and pandas' name lookup does not return one position
  for a repeated name.
- The row index is taken as 0-based positional, as CSV input gives. A
  filtered row's `index[0]` is its position.
- Cell values are empty, text or a real number. NaN and other numpy values
  are not distinguished.
- `Convert.ConvertReport2Excel` returns the new sheet and an outcome, not
  the workbook. The workbook is updated in place, and an exception becomes
  a `Fail` outcome.

## Findings

| source | as written | input that shows it | evidently intended | confidence | as-written member | corrected member |
|---|---|---|---|---|---|---|
| convert_report2excel.py:136 | the top-right-corner test compares the column with `report.shape[0]`, the row count | a three-class report (n = 6 rows, C = 5 columns): cell (1,5) gets only a right side, so the top line stops one cell short; with n = 4 and C = 5, cell (1,4) gets a stray right side | compare with `report.shape[1]`, the column count | not executed; high | Passes.TopRightCornerAsWritten | Passes.IntendedOuterBorderFor |

The conversion model (`Convert.ConvertReport2Excel`) keeps the test as
written, because it models the code. `Properties.FinalBorders` states the
resulting borders of the region exactly. `Passes.IntendedOuterBorderFor` is the corrected
case analysis, proved to draw the full rectangle.
