/** Page geometry: margins converted to pixel padding, and the zoom level
    computed in fill mode from the width of the area around the pages. */
module Viewport {

  /** Pixels in one inch (CSS reference pixel). */
  const PixelsPerInch: real := 96.0
  /** Centimetres in one inch. */
  const CentimetresPerInch: real := 2.54
  /** Width in pixels of a page at 100% zoom. */
  const ReferencePageWidth: real := 800.0

  /** A margin length in `unit` ("px", "in" or "cm") as pixels; any other
      unit is taken to be pixels already. No unit is smaller than a pixel,
      so a length that is not negative never shrinks. */
  function ToPixels(value: real, unit: string): (px: real)
    ensures 0.0 <= value ==> 0.0 <= value <= px
    ensures value < 0.0 ==> px <= value
  {
    if unit == "px" then value
    else if unit == "in" then value * PixelsPerInch
    else if unit == "cm" then (value / CentimetresPerInch) * PixelsPerInch
    else value
  }

  /** The conversion is a scaling: the value times the pixel length of one
      unit, which is positive. */
  lemma ToPixelsScales(v: real, unit: string)
    ensures ToPixels(v, unit) == v * ToPixels(1.0, unit)
    ensures ToPixels(1.0, unit) > 0.0
  {
  }

  /** A larger margin never gives less padding, whatever the unit. */
  lemma ToPixelsMonotone(v: real, w: real, unit: string)
    requires v <= w
    ensures ToPixels(v, unit) <= ToPixels(w, unit)
  {
    ToPixelsScales(v, unit);
    ToPixelsScales(w, unit);
    ToPixelsScales(w - v, unit);
    assert ToPixels(w, unit) - ToPixels(v, unit) == (w - v) * ToPixels(1.0, unit);
  }

  /** The two physical units agree: a length in inches and the same length
      in centimetres give the same padding. */
  lemma InchesAndCentimetresAgree(inches: real)
    ensures ToPixels(inches * CentimetresPerInch, "cm") == ToPixels(inches, "in")
  {
  }

  /** The worked cases of the conversion, and the fallback for a unit the
      editor does not offer. */
  lemma ToPixelsExamples(v: real, unit: string)
    requires unit != "in" && unit != "cm"
    ensures ToPixels(1.0, "in") == 96.0
    ensures ToPixels(2.54, "cm") == 96.0
    ensures ToPixels(50.0, "px") == 50.0
    ensures ToPixels(v, unit) == v
  {
  }

  /** `Math.round`: the nearest integer, halves rounded up. */
  function Round(x: real): (n: int)
    ensures n as real - 0.5 <= x < n as real + 0.5
  {
    (x + 0.5).Floor
  }

  /** Only one integer is that close to `x`. */
  lemma RoundUnique(x: real, n: int)
    requires n as real - 0.5 <= x < n as real + 0.5
    ensures Round(x) == n
  {
    var r := Round(x);
    assert r as real - 0.5 <= x < r as real + 0.5;
    assert (r - n) as real < 1.0 && (n - r) as real < 1.0;
  }

  /** The fill-mode zoom level: the container width as a percentage of the
      reference page width, rounded. */
  function FillZoom(containerWidth: real): (percent: int)
    ensures percent as real - 0.5 <= containerWidth / 8.0 < percent as real + 0.5
  {
    Round((containerWidth / ReferencePageWidth) * 100.0)
  }

  /** For a container a whole number of pixels wide, the fill zoom is
      (width + 4) div 8: an eighth of the width, rounded half up. */
  lemma {:induction false} FillZoomWholePixels(width: nat)
    ensures FillZoom(width as real) == (width + 4) / 8
  {
    var q := (width + 4) / 8;
    assert 8 * q <= width + 4 < 8 * q + 8;
    assert (8 * q) as real <= width as real + 4.0 < (8 * q + 8) as real;
    assert q as real - 0.5 <= width as real / 8.0 < q as real + 0.5;
    RoundUnique((width as real / ReferencePageWidth) * 100.0, q);
  }

  /** A container twice the page width fills at 200%; one page wide at 100%. */
  lemma FillZoomExamples()
    ensures FillZoom(1600.0) == 200
    ensures FillZoom(800.0) == 100
  {
    FillZoomWholePixels(1600);
    FillZoomWholePixels(800);
  }

  /** The four margins of a page, in one unit. */
  datatype Margins = Margins(top: real, right: real, bottom: real, left: real)

  datatype Side = Top | Right | Bottom | Left

  function MarginAt(m: Margins, side: Side): real
  {
    match side
    case Top => m.top
    case Right => m.right
    case Bottom => m.bottom
    case Left => m.left
  }

  /** The margins with one side set to a new value, as the side's input
      field does. */
  function WithMargin(m: Margins, side: Side, value: real): (r: Margins)
    ensures MarginAt(r, side) == value
    ensures forall other :: other != side ==> MarginAt(r, other) == MarginAt(m, other)
  {
    match side
    case Top => m.(top := value)
    case Right => m.(right := value)
    case Bottom => m.(bottom := value)
    case Left => m.(left := value)
  }

  /** The padding of every page: each side converted on its own. */
  function Padding(m: Margins, unit: string): (px: Margins)
    ensures forall side :: MarginAt(px, side) == ToPixels(MarginAt(m, side), unit)
  {
    Margins(ToPixels(m.top, unit), ToPixels(m.right, unit),
            ToPixels(m.bottom, unit), ToPixels(m.left, unit))
  }

  /** Margins that are not negative give padding that is not negative. */
  lemma PaddingNonNegative(m: Margins, unit: string)
    requires forall side :: MarginAt(m, side) >= 0.0
    ensures forall side :: MarginAt(Padding(m, unit), side) >= 0.0
  {
    forall side ensures MarginAt(Padding(m, unit), side) >= 0.0 {
      ToPixelsMonotone(0.0, MarginAt(m, side), unit);
    }
  }

  /** The initial margins, one inch on every side, pad each side by 96 pixels. */
  lemma DefaultPadding()
    ensures Padding(Margins(1.0, 1.0, 1.0, 1.0), "in") == Margins(96.0, 96.0, 96.0, 96.0)
  {
  }
}
