/** A classification report as the converter receives it (a table whose
    first column holds the class labels), the lookups the converter makes in
    it, and the cells that appending its rows to a fresh sheet produces. */
module Reports {
  import opened Styles

  /** `columns` are the column names; each row holds one value per column.
      The number of rows is `report.shape[0]` and the number of columns
      `report.shape[1]`. */
  datatype Report = Report(columns: seq<string>, rows: seq<seq<Value>>)

  /** A table: every row is as wide as the header, and no column name is
      repeated (a CSV reader renames repeated headers). */
  predicate WellFormed(report: Report) {
    && (forall k :: 0 <= k < |report.rows| ==> |report.rows[k]| == |report.columns|)
    && (forall i, j :: 0 <= i < j < |report.columns| ==> report.columns[i] != report.columns[j])
  }

  /** The first position of `x` in `s`: a column position by name, or the
      first row whose label equals a given label. */
  function FirstIndex<T(==)>(s: seq<T>, x: T): (r: Option<nat>)
    ensures r.None? <==> x !in s
    ensures r.Some? ==> r.value < |s| && s[r.value] == x && x !in s[..r.value]
  {
    if |s| == 0 then None
    else if s[0] == x then Some(0)
    else match FirstIndex(s[1..], x)
      case None => None
      case Some(i) =>
        assert s[..i + 1] == [s[0]] + s[1..][..i];
        Some(i + 1)
  }

  /** The 1-based sheet column of the column named `name`, if present. */
  function ColumnNumber(report: Report, name: string): (r: Option<int>)
    ensures r.None? <==> name !in report.columns
    ensures r.Some? ==> 1 <= r.value <= |report.columns| && report.columns[r.value - 1] == name
  {
    match FirstIndex(report.columns, name)
    case None => None
    case Some(i) => Some(i + 1)
  }

  /** The label column, `report.iloc[:, 0]`. */
  function Labels(report: Report): (labels: seq<Value>)
    ensures |labels| == |report.rows|
    ensures WellFormed(report) && |report.columns| > 0 ==>
      forall k :: 0 <= k < |labels| ==> labels[k] == report.rows[k][0]
  {
    seq(|report.rows|, k requires 0 <= k < |report.rows| =>
      if |report.rows[k]| > 0 then report.rows[k][0] else Empty)
  }

  const Accuracy := Text("accuracy")
  const MicroAvg := Text("micro avg")

  /** The sheet row of the first `accuracy` row, or failing that of the
      first `micro avg` row (data row `k` sits on sheet row `k + 2`); None
      when the label column holds neither. */
  function DividerRow(labels: seq<Value>): (d: Option<int>)
    ensures d.Some? <==> Accuracy in labels || MicroAvg in labels
    ensures d.Some? ==> 2 <= d.value <= |labels| + 1
    ensures Accuracy in labels ==>
      d.Some? && labels[d.value - 2] == Accuracy && Accuracy !in labels[..d.value - 2]
    ensures Accuracy !in labels && MicroAvg in labels ==>
      d.Some? && labels[d.value - 2] == MicroAvg && MicroAvg !in labels[..d.value - 2]
  {
    if Accuracy in labels then
      Some(FirstIndex(labels, Accuracy).value + 2)
    else
      match FirstIndex(labels, MicroAvg)
      case None => None
      case Some(k) => Some(k + 2)
  }

  /** `avg_row`: the divider row, or one past the last sheet row of the
      report when there is no divider. */
  function AvgRow(report: Report): (avgRow: int)
    ensures 2 <= avgRow <= |report.rows| + 2
    ensures avgRow == |report.rows| + 2 <==> Accuracy !in Labels(report) && MicroAvg !in Labels(report)
    ensures DividerRow(Labels(report)).Some? ==> avgRow == DividerRow(Labels(report)).value
  {
    match DividerRow(Labels(report))
    case Some(d) => d
    case None => |report.rows| + 2
  }

  /** What the conversion appends, in order: the header row of column names,
      then every data row. */
  function SheetRows(report: Report): (all: seq<seq<Value>>)
    ensures |all| == |report.rows| + 1
    ensures all[1..] == report.rows
  {
    [seq(|report.columns|, i requires 0 <= i < |report.columns| => Text(report.columns[i]))] + report.rows
  }

  /** Cell (r, c) of a fresh sheet once the first `k` of `all` have been
      appended: appended row `i` lands on sheet row `i + 1`. */
  function WrittenUpTo(all: seq<seq<Value>>, k: int, r: int, c: int): Cell {
    if 1 <= r <= k && r <= |all| && 1 <= c <= |all[r - 1]| then
      EmptyCell.(value := all[r - 1][c - 1])
    else
      EmptyCell
  }

  /** Cell (r, c) once the whole report has been appended. */
  function Written(report: Report, r: int, c: int): Cell {
    var all := SheetRows(report);
    WrittenUpTo(all, |all|, r, c)
  }

  /** Row 1 holds the column names, data row `k` sits on sheet row `k + 2`,
      and nothing is written outside rows 1..n+1 and columns 1..C. */
  lemma WrittenCells(report: Report, r: int, c: int)
    requires WellFormed(report)
    ensures Written(report, r, c).border == NoBorder
    ensures Written(report, r, c).font == WorkbookDefault
    ensures Written(report, r, c).fill == NoFill
    ensures Written(report, r, c).numberFormat == GeneralFormat
    ensures Written(report, r, c).value ==
      if r == 1 && 1 <= c <= |report.columns| then Text(report.columns[c - 1])
      else if 2 <= r <= |report.rows| + 1 && 1 <= c <= |report.columns| then report.rows[r - 2][c - 1]
      else Empty
  {
    var all := SheetRows(report);
    if 2 <= r <= |report.rows| + 1 {
      assert all[r - 1] == all[1..][r - 2];
    }
  }
}
