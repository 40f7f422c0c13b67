/** The spreadsheet vocabulary the converter uses, reduced to plain values:
    border sides, fonts, fills, number formats, cell values, cell ranges and
    the colour-scale rule. Colours are kept as their RGB hex strings. */
module Styles {

  datatype Option<+T> = None | Some(value: T)

  /** The style of one border side: absent, `thin` or `thick`. */
  datatype Side = NoSide | Thin | Thick

  datatype Edge = Left | Right | Top | Bottom

  datatype Border = Border(left: Side, right: Side, top: Side, bottom: Side)

  /** A border with no side drawn, as a fresh cell has. */
  const NoBorder := Border(NoSide, NoSide, NoSide, NoSide)

  function SideOf(b: Border, e: Edge): Side {
    match e
    case Left => b.left
    case Right => b.right
    case Top => b.top
    case Bottom => b.bottom
  }

  /** The border a pass writes back: `e` set to `s`, the other three sides
      copied from the existing border. */
  function WithSide(b: Border, e: Edge, s: Side): (r: Border)
    ensures SideOf(r, e) == s
    ensures forall other :: other != e ==> SideOf(r, other) == SideOf(b, other)
  {
    match e
    case Left => b.(left := s)
    case Right => b.(right := s)
    case Top => b.(top := s)
    case Bottom => b.(bottom := s)
  }

  /** A fresh cell carries the workbook's default font; the converter only
      ever assigns Arial, bold or not. */
  datatype Font = WorkbookDefault | Arial(bold: bool)

  const HeaderFont := Arial(true)
  const DefaultFont := Arial(false)

  datatype Fill = NoFill | Solid(rgb: string)

  /** The light gray of the header row and the label column. */
  const HeaderColor := Solid("D9D9D9")

  const GeneralFormat := "General"
  /** Four decimal places. */
  const FloatPrec := "0.0000"

  datatype Value = Empty | Text(text: string) | Number(number: real)

  datatype Cell = Cell(value: Value, border: Border, font: Font, fill: Fill, numberFormat: string)

  /** What a cell that was never written or styled holds. */
  const EmptyCell := Cell(Empty, NoBorder, WorkbookDefault, NoFill, GeneralFormat)

  /** A rectangle of 1-based sheet coordinates, both corners included; it is
      empty when a lower bound exceeds its upper bound. */
  datatype CellRange = CellRange(minRow: int, minCol: int, maxRow: int, maxCol: int) {
    predicate Contains(r: int, c: int) {
      minRow <= r <= maxRow && minCol <= c <= maxCol
    }
  }

  /** A three-stop colour scale: numeric stop values and their colours. */
  datatype ColorScaleRule = ColorScaleRule(
    startValue: real, startColor: string,
    midValue: real, midColor: string,
    endValue: real, endColor: string)

  const Red := "E67C73"
  const White := "FFFFFF"
  const Green := "57BB8A"

  /** Red at 0.0, white at 0.6, green at 1.0: higher scores are greener. */
  const ColorScale := ColorScaleRule(0.0, Red, 0.6, White, 1.0, Green)

  datatype ConditionalFormat = ConditionalFormat(range: CellRange, rule: ColorScaleRule)
}
