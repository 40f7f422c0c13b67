/** `convert_report2excel`: adds a sheet to the workbook, appends the
    report to it, and makes the fixed series of style passes over it. The
    sheet it leaves behind is specified stage by stage; an error stops the
    series, and the sheet keeps what the passes before it did. */
module Convert {
  import opened Styles
  import opened Reports
  import opened Passes
  import opened Sheets

  /** A missing column (its name), or column number 0 turned into a letter. */
  datatype Error = KeyError(column: string) | InvalidColumnIndex(index: int)

  datatype Outcome = Pass | Fail(error: Error)

  /** After the outer-boundary and header passes. */
  function Bordered(report: Report, r: int, c: int): (cell: Cell)
    ensures cell == Written(report, r, c).(border := cell.border)
    ensures !(1 <= r <= |report.rows| + 1 && 1 <= c <= |report.columns|) ==> cell == Written(report, r, c)
    ensures cell.border.left != Thick && cell.border.right != Thick
    ensures cell.border.top != Thick && cell.border.bottom != Thick
  {
    var n, C := |report.rows|, |report.columns|;
    StepAt(HeaderStep(C), r, c, StepAt(OuterStep(n, C), r, c, Written(report, r, c)))
  }

  /** After the support, label and divider passes as well. */
  function Delimited(report: Report, supportCol: int, r: int, c: int): (cell: Cell)
    ensures cell == Bordered(report, r, c).(border := cell.border)
    ensures cell.border.bottom == Bordered(report, r, c).border.bottom
    ensures 1 <= supportCol <= |report.columns| && !(1 <= r <= |report.rows| + 1 && 1 <= c <= |report.columns|) ==>
      cell == Bordered(report, r, c)
    ensures cell.border.left != Thick && cell.border.right != Thick && cell.border.bottom != Thick
    ensures cell.border.top == Thick ==> DividerRow(Labels(report)) == Some(r)
  {
    var n, C := |report.rows|, |report.columns|;
    var labelled := StepAt(LabelStep(n), r, c, StepAt(SupportStep(n, supportCol), r, c, Bordered(report, r, c)));
    match DividerRow(Labels(report))
    case Some(d) => StepAt(DividerStep(C, d), r, c, labelled)
    case None => labelled
  }

  /** After the font and number-format passes as well. */
  function Styled(report: Report, supportCol: int, r: int, c: int): (cell: Cell)
    ensures cell.value == Delimited(report, supportCol, r, c).value
    ensures cell.border == Delimited(report, supportCol, r, c).border
  {
    var n, C := |report.rows|, |report.columns|;
    StepAt(NumberFormatStep(n, supportCol), r, c, StepAt(FontStep(n, C), r, c, Delimited(report, supportCol, r, c)))
  }

  /** How the conversion ends: no columns at all, no `support` column, no
      `precision` column, or `support` being column 1 (so that the column
      before it is column 0), checked in that order. */
  function ConversionOutcome(report: Report): (outcome: Outcome)
    ensures outcome.Fail? ==>
      outcome.error in {KeyError("support"), KeyError("precision"), InvalidColumnIndex(0)}
    ensures outcome == Pass ==> |report.columns| >= 2
  {
    if |report.columns| == 0 then Fail(InvalidColumnIndex(0))
    else match ColumnNumber(report, "support")
      case None => Fail(KeyError("support"))
      case Some(supportCol) =>
        if ColumnNumber(report, "precision").None? then Fail(KeyError("precision"))
        else if supportCol - 1 == 0 then Fail(InvalidColumnIndex(0))
        else Pass
  }

  /** The conditional formats the new sheet ends with. */
  function ConditionalFormats(report: Report): (formats: seq<ConditionalFormat>)
    ensures |formats| <= 1
    ensures |formats| == 1 <==> ConversionOutcome(report) == Pass
    ensures forall f :: f in formats ==> f.rule == ColorScale
  {
    if ConversionOutcome(report).Fail? then []
    else
      var range := GradientRange(ColumnNumber(report, "precision").value, AvgRow(report),
                                 ColumnNumber(report, "support").value);
      [ConditionalFormat(range, ColorScale)]
  }

  /** Cell (r, c) of the new sheet when the conversion returns or fails. */
  function FinalCell(report: Report, r: int, c: int): (cell: Cell)
    ensures cell.value == Written(report, r, c).value
    ensures cell.border.left != Thick && cell.border.right != Thick && cell.border.bottom != Thick
    ensures cell.border.top == Thick ==> DividerRow(Labels(report)) == Some(r)
  {
    if |report.columns| == 0 then Written(report, r, c)
    else match ColumnNumber(report, "support")
      case None => Bordered(report, r, c)
      case Some(supportCol) =>
        if ConversionOutcome(report).Fail? then Delimited(report, supportCol, r, c)
        else Styled(report, supportCol, r, c)
  }

  method ConvertReport2Excel(workbook: Workbook, report: Report, sheetName: string)
    returns (worksheet: Worksheet, outcome: Outcome)
    requires WellFormed(report)
    modifies workbook
    ensures fresh(worksheet) && workbook.sheets == old(workbook.sheets) + [worksheet]
    ensures worksheet.title == sheetName
    ensures outcome == ConversionOutcome(report)
    ensures worksheet.conditionalFormats == ConditionalFormats(report)
    ensures forall r, c :: worksheet.At(r, c) == FinalCell(report, r, c)
  {
    worksheet := workbook.CreateSheet(sheetName);
    var dfRows := SheetRows(report);
    var k := 0;
    while k < |dfRows|
      invariant 0 <= k <= |dfRows|
      invariant fresh(worksheet) && workbook.sheets == old(workbook.sheets) + [worksheet]
      invariant worksheet.title == sheetName && worksheet.conditionalFormats == []
      invariant worksheet.currentRow == k
      invariant forall r, c :: worksheet.At(r, c) == WrittenUpTo(dfRows, k, r, c)
    {
      worksheet.Append(dfRows[k]);
      k := k + 1;
    }
    assert forall r, c :: worksheet.At(r, c) == Written(report, r, c);

    var n, C := |report.rows|, |report.columns|;
    if C == 0 {
      // The bottom-right corner of the outer boundary is column 0.
      return worksheet, Fail(InvalidColumnIndex(0));
    }
    worksheet.FormatRange(OuterStep(n, C));
    worksheet.FormatRange(HeaderStep(C));
    assert forall r, c :: worksheet.At(r, c) == Bordered(report, r, c);

    var supportCol := ColumnNumber(report, "support");
    if supportCol.None? {
      return worksheet, Fail(KeyError("support"));
    }
    worksheet.FormatRange(SupportStep(n, supportCol.value));
    worksheet.FormatRange(LabelStep(n));

    var avgRow := n + 2;
    var divider := DividerRow(Labels(report));
    if divider.Some? {
      avgRow := divider.value;
      worksheet.FormatRange(DividerStep(C, avgRow));
    }
    assert forall r, c :: worksheet.At(r, c) == Delimited(report, supportCol.value, r, c);
    assert avgRow == AvgRow(report);

    var precisionCol := ColumnNumber(report, "precision");
    if precisionCol.None? {
      return worksheet, Fail(KeyError("precision"));
    }
    if supportCol.value - 1 == 0 {
      // The colour-scale range ends at column 0.
      return worksheet, Fail(InvalidColumnIndex(0));
    }
    worksheet.AddConditionalFormat(GradientRange(precisionCol.value, avgRow, supportCol.value), ColorScale);
    worksheet.FormatRange(FontStep(n, C));
    worksheet.FormatRange(NumberFormatStep(n, supportCol.value));
    outcome := Pass;
  }
}
