/** What the new sheet holds after a conversion: the values, the borders,
    the fonts and fills, the number formats and the colour scale, and what
    an error leaves behind. Rows 1..n+1 and columns 1..C, for a report of
    `n` rows and `C` columns, are called the region. */
module Properties {
  import opened Styles
  import opened Reports
  import opened Passes
  import opened Convert

  predicate InRegion(report: Report, r: int, c: int) {
    1 <= r <= |report.rows| + 1 && 1 <= c <= |report.columns|
  }

  /** Styling never changes a value: row 1 holds the column names, data row
      `k` sits on sheet row `k + 2`, and nothing outside the region holds a
      value, whether or not the conversion succeeds. */
  lemma SheetValues(report: Report, r: int, c: int)
    requires WellFormed(report)
    ensures FinalCell(report, r, c).value ==
      if r == 1 && 1 <= c <= |report.columns| then Text(report.columns[c - 1])
      else if 2 <= r <= |report.rows| + 1 && 1 <= c <= |report.columns| then report.rows[r - 2][c - 1]
      else Empty
  {
    WrittenCells(report, r, c);
  }

  /** No pass reaches outside the region. */
  lemma OutsideRegionUntouched(report: Report, r: int, c: int)
    requires WellFormed(report)
    requires !InRegion(report, r, c)
    ensures FinalCell(report, r, c) == EmptyCell
  {
    WrittenCells(report, r, c);
  }

  /** The border the outer-boundary pass leaves on a fresh cell. */
  function OuterBorderAt(r: int, c: int, n: int, C: int): Border {
    match OuterBorderFor(r, c, n, C)
    case Some(b) => b
    case None => NoBorder
  }

  lemma BorderedCell(report: Report, r: int, c: int)
    requires WellFormed(report)
    ensures
      var n, C := |report.rows|, |report.columns|;
      var o := OuterBorderAt(r, c, n, C);
      Bordered(report, r, c) == Written(report, r, c).(border :=
        if InRegion(report, r, c) then o.(bottom := if r == 1 then Thin else o.bottom) else NoBorder)
  {
    WrittenCells(report, r, c);
  }

  lemma DelimitedCell(report: Report, s: int, r: int, c: int)
    requires WellFormed(report) && 1 <= s <= |report.columns|
    ensures
      var b := Bordered(report, r, c).border;
      Delimited(report, s, r, c) == Bordered(report, r, c).(border := Border(
        if InRegion(report, r, c) && c == s then Thin else b.left,
        if InRegion(report, r, c) && c == 1 then Thin else b.right,
        if InRegion(report, r, c) && DividerRow(Labels(report)) == Some(r) then Thick else b.top,
        b.bottom))
  {
    var n, C := |report.rows|, |report.columns|;
    var sup := StepAt(SupportStep(n, s), r, c, Bordered(report, r, c));
    var lab := StepAt(LabelStep(n), r, c, sup);
    assert sup == Bordered(report, r, c).(border := Bordered(report, r, c).border.(left :=
      if InRegion(report, r, c) && c == s then Thin else Bordered(report, r, c).border.left));
    assert lab == sup.(border := sup.border.(right := if InRegion(report, r, c) && c == 1 then Thin else sup.border.right));
  }

  lemma StyledCell(report: Report, s: int, r: int, c: int)
    requires WellFormed(report) && 1 <= s <= |report.columns|
    ensures
      var d := Delimited(report, s, r, c);
      Styled(report, s, r, c) == d.(
        font := if !InRegion(report, r, c) then d.font else if r == 1 || c == 1 then HeaderFont else DefaultFont,
        fill := if InRegion(report, r, c) && (r == 1 || c == 1) then HeaderColor else d.fill,
        numberFormat := if 2 <= r <= |report.rows| + 1 && 2 <= c <= s - 1 then FloatPrec else d.numberFormat)
  {
  }

  /** The borders of a region cell once every border pass has run, which is
      the case whenever the report has a `support` column (in column `s`).
      Left: column 1 (outer boundary) and column `s` (support). Right:
      column 1 (label), column C (outer boundary) and, in row 1, column n
      (the top-right test compares with the row count). Top: thick on the
      divider row, else thin in row 1 except at (1, C) when C is neither
      1 nor n. Bottom: row 1 (header) and row n+1 (outer boundary). */
  lemma FinalBorders(report: Report, r: int, c: int)
    requires WellFormed(report) && InRegion(report, r, c)
    requires "support" in report.columns
    ensures
      var n, C, s := |report.rows|, |report.columns|, ColumnNumber(report, "support").value;
      FinalCell(report, r, c).border == Border(
        ThinIf(c == 1 || c == s),
        ThinIf(c == 1 || c == C || (r == 1 && c == n)),
        if DividerRow(Labels(report)) == Some(r) then Thick
        else ThinIf(r == 1 && (c == 1 || c == n || c != C)),
        ThinIf(r == 1 || r == n + 1))
  {
    var n, C, s := |report.rows|, |report.columns|, ColumnNumber(report, "support").value;
    WrittenCells(report, r, c);
    OuterBorderSides(r, c, n, C);
    BorderedCell(report, r, c);
    DelimitedCell(report, s, r, c);
    StyledCell(report, s, r, c);
    assert FinalCell(report, r, c).border == Delimited(report, s, r, c).border;
  }

  lemma OuterBorderNeverThick(r: int, c: int, n: int, C: int)
    ensures OuterBorderAt(r, c, n, C).left != Thick && OuterBorderAt(r, c, n, C).right != Thick
    ensures OuterBorderAt(r, c, n, C).top != Thick && OuterBorderAt(r, c, n, C).bottom != Thick
  {
  }

  /** Before the font and number-format passes every cell keeps its
      default font, fill and number format. */
  lemma UnstyledBeforeFonts(report: Report, r: int, c: int)
    requires WellFormed(report)
    ensures ConversionOutcome(report).Fail? ==>
      && FinalCell(report, r, c).font == WorkbookDefault
      && FinalCell(report, r, c).fill == NoFill
      && FinalCell(report, r, c).numberFormat == GeneralFormat
    ensures "support" in report.columns ==>
      var d := Delimited(report, ColumnNumber(report, "support").value, r, c);
      d.font == WorkbookDefault && d.fill == NoFill && d.numberFormat == GeneralFormat
  {
    WrittenCells(report, r, c);
    BorderedCell(report, r, c);
    if "support" in report.columns {
      DelimitedCell(report, ColumnNumber(report, "support").value, r, c);
    }
  }

  /** Without an `accuracy` or a `micro avg` label the divider search finds
      no row, `avg_row` keeps its initial value n+2, and no cell anywhere
      gets a thick side. */
  lemma NoDividerWithoutAggregateRow(report: Report, r: int, c: int)
    requires WellFormed(report)
    requires Accuracy !in Labels(report) && MicroAvg !in Labels(report)
    ensures AvgRow(report) == |report.rows| + 2
    ensures FinalCell(report, r, c).border.top != Thick
    ensures FinalCell(report, r, c).border.left != Thick
    ensures FinalCell(report, r, c).border.right != Thick
    ensures FinalCell(report, r, c).border.bottom != Thick
  {
    WrittenCells(report, r, c);
    BorderedCell(report, r, c);
    OuterBorderNeverThick(r, c, |report.rows|, |report.columns|);
    if "support" in report.columns {
      var s := ColumnNumber(report, "support").value;
      DelimitedCell(report, s, r, c);
      StyledCell(report, s, r, c);
    }
  }

  /** After a successful conversion the header row and the label column are
      bold Arial on light gray, every other region cell is regular Arial
      with no fill, and cells outside the region keep the defaults. */
  lemma FinalFontsAndFills(report: Report, r: int, c: int)
    requires WellFormed(report) && ConversionOutcome(report) == Pass
    ensures FinalCell(report, r, c).font ==
      if !InRegion(report, r, c) then WorkbookDefault
      else if r == 1 || c == 1 then HeaderFont
      else DefaultFont
    ensures FinalCell(report, r, c).fill ==
      if InRegion(report, r, c) && (r == 1 || c == 1) then HeaderColor else NoFill
  {
    UnstyledBeforeFonts(report, r, c);
    var s := ColumnNumber(report, "support").value;
    StyledCell(report, s, r, c);
    assert FinalCell(report, r, c) == Styled(report, s, r, c);
  }

  /** A cell shows four decimals exactly when the conversion succeeded and
      the cell lies in rows 2..n+1 and columns 2 to the one before
      `support`; every other cell keeps the general format. */
  lemma FinalNumberFormat(report: Report, r: int, c: int)
    requires WellFormed(report)
    ensures FinalCell(report, r, c).numberFormat == FloatPrec <==>
      && ConversionOutcome(report) == Pass
      && 2 <= r <= |report.rows| + 1
      && 2 <= c < ColumnNumber(report, "support").value
    ensures FinalCell(report, r, c).numberFormat in {FloatPrec, GeneralFormat}
  {
    UnstyledBeforeFonts(report, r, c);
    if ConversionOutcome(report) == Pass {
      var s := ColumnNumber(report, "support").value;
      StyledCell(report, s, r, c);
      assert FinalCell(report, r, c) == Styled(report, s, r, c);
    }
  }

  /** The conversion succeeds exactly when the report has a `precision`
      and a `support` column and `support` is not the first column; it
      fails on the first of these checks that does not hold, after the
      passes before it have run. */
  lemma Outcomes(report: Report)
    requires WellFormed(report)
    ensures ConversionOutcome(report) == Pass <==>
      && "precision" in report.columns && "support" in report.columns
      && report.columns[0] != "support"
    ensures |report.columns| == 0 ==> ConversionOutcome(report) == Fail(InvalidColumnIndex(0))
    ensures |report.columns| > 0 && "support" !in report.columns ==>
      ConversionOutcome(report) == Fail(KeyError("support"))
    ensures "support" in report.columns && "precision" !in report.columns ==>
      ConversionOutcome(report) == Fail(KeyError("precision"))
    ensures "precision" in report.columns && |report.columns| > 0 && report.columns[0] == "support" ==>
      ConversionOutcome(report) == Fail(InvalidColumnIndex(0))
  {
    if "support" in report.columns && report.columns[0] != "support" {
      assert ColumnNumber(report, "support").value != 1;
    }
  }

  /** A failed conversion leaves every font, fill and number format at its
      default and adds no colour scale; when it is the `support` column that
      is missing, the support, label and divider borders are not drawn
      either: no side is thick, and only column 1 has a left side. */
  lemma FailedConversionUnstyled(report: Report, r: int, c: int)
    requires WellFormed(report) && ConversionOutcome(report).Fail?
    ensures ConditionalFormats(report) == []
    ensures FinalCell(report, r, c).font == WorkbookDefault
    ensures FinalCell(report, r, c).fill == NoFill
    ensures FinalCell(report, r, c).numberFormat == GeneralFormat
    ensures ConversionOutcome(report) == Fail(KeyError("support")) ==>
      && FinalCell(report, r, c).border.top != Thick
      && (FinalCell(report, r, c).border.left == NoSide || c == 1)
  {
    UnstyledBeforeFonts(report, r, c);
    BorderedCell(report, r, c);
    if ConversionOutcome(report) == Fail(KeyError("support")) {
      OuterBorderNeverThick(r, c, |report.rows|, |report.columns|);
      if InRegion(report, r, c) {
        OuterBorderSides(r, c, |report.rows|, |report.columns|);
      }
    }
  }

  /** A successful conversion adds exactly one colour-scale rule, red at
      0.0, white at 0.6 and green at 1.0. It covers the precision column to
      the column before `support`, from row 1 to two rows past the divider
      row, or to row n+4 when there is no divider. */
  lemma ColourScaleRange(report: Report)
    requires WellFormed(report) && ConversionOutcome(report) == Pass
    ensures |ConditionalFormats(report)| == 1
    ensures
      var cf := ConditionalFormats(report)[0];
      && report.columns[cf.range.minCol - 1] == "precision"
      && report.columns[cf.range.maxCol] == "support"
      && cf.range.minRow == 1
      && cf.range.maxRow == AvgRow(report) + 2
      && (Accuracy in Labels(report) ==>
            Labels(report)[cf.range.maxRow - 4] == Accuracy && Accuracy !in Labels(report)[..cf.range.maxRow - 4])
      && (Accuracy !in Labels(report) && MicroAvg in Labels(report) ==>
            Labels(report)[cf.range.maxRow - 4] == MicroAvg && MicroAvg !in Labels(report)[..cf.range.maxRow - 4])
      && (Accuracy !in Labels(report) && MicroAvg !in Labels(report) ==>
            cf.range.maxRow == |report.rows| + 4)
      && cf.rule.startValue < cf.rule.midValue < cf.rule.endValue
      && cf.rule.startColor == Red && cf.rule.midColor == White && cf.rule.endColor == Green
  {
  }

  /** A two-class report: classes A and B, then accuracy (with no precision
      or recall), macro avg and weighted avg, under the usual five columns. */
  function TwoClassReport(): Report {
    Report(["class", "precision", "recall", "f1-score", "support"],
      [[Text("A"), Number(1.0), Number(0.5), Number(0.6667), Number(2.0)],
       [Text("B"), Number(0.6667), Number(1.0), Number(0.8), Number(2.0)],
       [Accuracy, Empty, Empty, Number(0.75), Number(4.0)],
       [Text("macro avg"), Number(0.8333), Number(0.75), Number(0.7333), Number(4.0)],
       [Text("weighted avg"), Number(0.8333), Number(0.75), Number(0.7333), Number(4.0)]])
  }

  lemma TwoClassWellFormed()
    ensures WellFormed(TwoClassReport())
  {
    var cols := TwoClassReport().columns;
    assert forall i, j :: 0 <= i < j < |cols| ==> cols[i][0] != cols[j][0] || cols[i][1] != cols[j][1];
  }

  lemma TwoClassLookups()
    ensures ColumnNumber(TwoClassReport(), "support") == Some(5)
    ensures ColumnNumber(TwoClassReport(), "precision") == Some(2)
    ensures DividerRow(Labels(TwoClassReport())) == Some(4)
  {
    var report := TwoClassReport();
    var labels := Labels(report);
    assert labels == [Text("A"), Text("B"), Accuracy, Text("macro avg"), Text("weighted avg")];
    assert labels[2] == Accuracy && Accuracy !in labels[..2];
    assert report.columns[4] == "support" && "support" !in report.columns[..4];
    assert report.columns[1] == "precision" && "precision" !in report.columns[..1];
  }

  /** For that report the conversion succeeds; the thick divider runs along
      the top of the accuracy row, which is sheet row 4; the colour scale
      covers B1:D6; the top-right cell is boxed on all four sides, since
      here n = C = 5; and row 7 stays blank. */
  lemma TwoClassExample()
    ensures ConversionOutcome(TwoClassReport()) == Pass
    ensures ConditionalFormats(TwoClassReport()) == [ConditionalFormat(CellRange(1, 2, 6, 4), ColorScale)]
    ensures forall c :: 1 <= c <= 5 ==> FinalCell(TwoClassReport(), 4, c).border.top == Thick
    ensures FinalCell(TwoClassReport(), 1, 5).border == Border(Thin, Thin, Thin, Thin)
    ensures FinalCell(TwoClassReport(), 3, 3).numberFormat == FloatPrec
    ensures FinalCell(TwoClassReport(), 7, 1) == EmptyCell
  {
    var report := TwoClassReport();
    TwoClassWellFormed();
    TwoClassLookups();
    forall c | 1 <= c <= 5
      ensures FinalCell(report, 4, c).border.top == Thick
    {
      FinalBorders(report, 4, c);
    }
    FinalBorders(report, 1, 5);
    FinalNumberFormat(report, 3, 3);
    OutsideRegionUntouched(report, 7, 1);
  }
}
