/** The overlay `mark_defects` draws: for each defect a ringed circle with a
    centre dot and crosshair, its number, its size and, for a millimetre
    position, its coordinates; then a legend when there is any defect. */
module Markers {
  import opened Wrappers
  import opened Python
  import opened Canvas
  import opened Defects

  /** The panel size assumed when the caller names none: 500 x 400 mm. */
  const DefaultPanelWidthMm: real := 500.0
  const DefaultPanelHeightMm: real := 400.0

  /** Stroke widths of the main ring, the halo around it and the
      crosshair. */
  const RingStroke: int := 4
  const HaloStroke: int := 1
  const CrossStroke: int := 2

  /** The radius of the centre dot and the half-length of the crosshair
      arms. */
  const DotRadius: int := 5
  const CrossArm: int := 8

  /** The translucent white of the halo. */
  const HaloColor: Rgba := Rgba(255, 255, 255, 180)

  /** The dark backing of the number and size labels, and the lighter one
      of the coordinate label. */
  const LabelShade: Rgba := Rgba(0, 0, 0, 220)
  const CoordShade: Rgba := Rgba(0, 0, 0, 200)

  /** The grey of the coordinate label. */
  const CoordColor: Rgba := Rgba(200, 200, 200, 255)

  /** The backing of the legend. */
  const LegendShade: Rgba := Rgba(0, 0, 0, 200)

  /** The square box of the circle of radius `r` around `c`. */
  function Around(c: Point, r: int): Box {
    Box(c.x - r, c.y - r, c.x + r, c.y + r)
  }

  /** A label's backing: the measured text box widened by `pad`, or, when
      text cannot be measured, the fixed box reaching `w` right and `h`
      down from the anchor (`None`: no backing at all). */
  function Backing(at: Point, caption: Label, font: FontRole, pad: int,
                   fallback: Option<(int, int)>, shade: Rgba, m: TextMetrics): seq<Primitive> {
    if m.Measured? then [Rect(AroundText(at, caption, font, pad), shade)]
    else if fallback.Some? then
      [Rect(Fixed(Box(at.x - 3, at.y - 3, at.x + fallback.value.0, at.y + fallback.value.1)), shade)]
    else []
  }

  /** Where the number label goes: left of and above the circle. */
  function IdAnchor(mk: Marker): Point {
    Point(mk.center.x - mk.radius - 5, mk.center.y - mk.radius - 30)
  }

  /** Where the size label goes: under the circle, flush with its left edge. */
  function SizeAnchor(mk: Marker): Point {
    Point(mk.center.x - mk.radius, mk.center.y + mk.radius + 8)
  }

  /** Where the coordinate label goes: right of the circle. */
  function CoordAnchor(mk: Marker): Point {
    Point(mk.center.x + mk.radius + 8, mk.center.y - 10)
  }

  /** The circle, halo, dot and crosshair of a marker, in drawing order. */
  function Figure(mk: Marker): seq<Primitive> {
    var c, color := mk.center, ColorOf(mk.severity);
    [ Ellipse(Around(c, mk.radius), Outline(color, RingStroke)),
      Ellipse(Around(c, mk.radius + 2), Outline(HaloColor, HaloStroke)),
      Ellipse(Around(c, DotRadius), Fill(color)),
      Line(Point(c.x - CrossArm, c.y), Point(c.x + CrossArm, c.y), color, CrossStroke),
      Line(Point(c.x, c.y - CrossArm), Point(c.x, c.y + CrossArm), color, CrossStroke) ]
  }

  /** The number label: "#<id>" in the marker's colour, large font. */
  function IdPrims(mk: Marker, m: TextMetrics): seq<Primitive> {
    var at := IdAnchor(mk);
    Backing(at, IdLabel(mk.id), LargeFont, 3, Some((40, 25)), LabelShade, m)
    + [Text(at, IdLabel(mk.id), ColorOf(mk.severity), LargeFont)]
  }

  /** The size label: "<diameter> mm" in white, small font. */
  function SizePrims(mk: Marker, m: TextMetrics): seq<Primitive> {
    var at := SizeAnchor(mk);
    Backing(at, SizeLabel(mk.diameterMm), SmallFont, 3, Some((70, 20)), LabelShade, m)
    + [Text(at, SizeLabel(mk.diameterMm), White, SmallFont)]
  }

  /** The coordinate label "[<x_mm>, <y_mm>]" in grey, small font; only for
      a millimetre position, and without a backing when text cannot be
      measured. */
  function CoordPrims(mk: Marker, m: TextMetrics): seq<Primitive> {
    if mk.coords.None? then []
    else
      var at, caption := CoordAnchor(mk), CoordLabel(mk.coords.value.0, mk.coords.value.1);
      Backing(at, caption, SmallFont, 2, None, CoordShade, m)
      + [Text(at, caption, CoordColor, SmallFont)]
  }

  /** Everything drawn for one marker, in drawing order. */
  function MarkerPrims(mk: Marker, m: TextMetrics): seq<Primitive> {
    Figure(mk) + IdPrims(mk, m) + SizePrims(mk, m) + CoordPrims(mk, m)
  }

  /** The markers of `defects`, the first numbered `first`. */
  function AllMarkers(defects: seq<Defect>, first: nat, s: Scale, m: TextMetrics): seq<Primitive>
    decreases |defects|
  {
    if defects == [] then []
    else MarkerPrims(Resolve(defects[0], first, s), m) + AllMarkers(defects[1..], first + 1, s, m)
  }

  /** The legend in the top-right corner of a `width`-wide image: a dark
      panel, its title, a swatch and word per severity, and the total. */
  function Legend(width: int, count: nat): seq<Primitive> {
    var lx, ly := width - 200, 20;
    [ Rect(Fixed(Box(lx - 10, ly - 10, width - 10, ly + 90)), LegendShade),
      Text(Point(lx, ly), LegendTitle, White, LargeFont),
      Ellipse(Box(lx, ly + 30, lx + 12, ly + 42), Fill(Rgba(255, 0, 0, 255))),
      Text(Point(lx + 18, ly + 28), LegendHigh, White, SmallFont),
      Ellipse(Box(lx + 70, ly + 30, lx + 82, ly + 42), Fill(Rgba(255, 140, 0, 255))),
      Text(Point(lx + 88, ly + 28), LegendMedium, White, SmallFont),
      Ellipse(Box(lx, ly + 55, lx + 12, ly + 67), Fill(Rgba(255, 200, 0, 255))),
      Text(Point(lx + 18, ly + 53), LegendLow, White, SmallFont),
      Text(Point(lx + 70, ly + 53), LegendTotal(count), White, SmallFont) ]
  }

  /** The overlay for `defects` on a `width` x `height` image of a panel of
      `panelW` x `panelH` mm: the markers in list order, then the legend if
      the list is not empty. A zero panel dimension raises
      `ZeroDivisionError`, even for an empty list. */
  function MarkDefects(width: nat, height: nat, panelW: real, panelH: real,
                       defects: seq<Defect>, m: TextMetrics): (r: Result<seq<Primitive>, PyError>)
    ensures r.Failure? <==> panelW == 0.0 || panelH == 0.0
    ensures r.Failure? ==> r.error == ZeroDivisionError
    ensures r.Success? && defects == [] ==> r.value == []
  {
    match ScaleFor(width, height, panelW, panelH)
    case Failure(e) => Failure(e)
    case Success(s) =>
      Success(AllMarkers(defects, 1, s, m) + (if defects == [] then [] else Legend(width, |defects|)))
  }
}
