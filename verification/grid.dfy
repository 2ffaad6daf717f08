/** `overlay_grid`: a fine and a coarse line grid over the whole image, and a
    millimetre label at every coarse line along the top and the left edge.
    The labels are calibrated to a fixed 290 x 218 mm panel whatever the
    image shows. */
module Grid {
  import opened Wrappers
  import opened Python
  import opened Canvas

  /** The panel the axis labels are calibrated to; the renderer hard-codes
      it rather than taking it from the caller. */
  const PanelWidthMm: int := 290
  const PanelHeightMm: int := 218

  /** Millimetres per coarse cell when the image holds no whole cell. */
  const FallbackStepMm: int := 50

  /** Steps of the fine and coarse grid in pixels, and line opacity. */
  datatype GridSpec = GridSpec(stepSmall: int, stepLarge: int, opacity: int)

  /** The defaults: 24 px and 118 px steps at opacity 160. */
  const DefaultSpec := GridSpec(24, 118, 160)

  const FineStroke := 1
  const CoarseStroke := 3
  const LabelBackground := Rgba(0, 0, 0, 180)

  /** Fine lines are a light grey at half the configured opacity. */
  function FineColor(opacity: int): Rgba {
    Rgba(120, 120, 120, FloorDiv(opacity, 2))
  }

  /** Coarse lines are a darker grey at the full configured opacity. */
  function CoarseColor(opacity: int): Rgba {
    Rgba(80, 80, 80, opacity)
  }

  /** A line from the top edge to the bottom edge at column `x`. */
  function Vertical(x: int, height: nat, color: Rgba, stroke: int): Primitive {
    Line(Point(x, 0), Point(x, height), color, stroke)
  }

  /** A line from the left edge to the right edge at row `y`. */
  function Horizontal(y: int, width: nat, color: Rgba, stroke: int): Primitive {
    Line(Point(0, y), Point(width, y), color, stroke)
  }

  function Verticals(xs: seq<int>, height: nat, color: Rgba, stroke: int): seq<Primitive> {
    seq(|xs|, i requires 0 <= i < |xs| => Vertical(xs[i], height, color, stroke))
  }

  function Horizontals(ys: seq<int>, width: nat, color: Rgba, stroke: int): seq<Primitive> {
    seq(|ys|, i requires 0 <= i < |ys| => Horizontal(ys[i], width, color, stroke))
  }

  /** The two label rows: along the top edge and down the left edge. */
  datatype Axis = Top | Left

  /** Where the label of the coarse line at `at` is drawn: five pixels in
      from the line and from the image edge. */
  function Anchor(axis: Axis, at: int): Point {
    match axis
    case Top => Point(at + 5, 5)
    case Left => Point(5, at + 5)
  }

  /** `dim // step`: the number of whole coarse cells along an axis. */
  function NumCells(dim: nat, step: int): int
    requires step != 0
  {
    FloorDiv(dim, step)
  }

  /** The millimetre value printed at the `i`-th coarse line: `i` cells of
      `panelMm / cells` millimetres each, truncated, or 50 mm per cell when
      there is no whole cell. */
  function LabelMm(i: nat, cells: int, panelMm: int): int {
    if cells > 0 then Trunc(i as real * (panelMm as real / cells as real))
    else i * FallbackStepMm
  }

  /** The text of one grid label. */
  function LabelText(axis: Axis, at: int, mm: int): Primitive {
    Text(Anchor(axis, at), MmLabel(mm), White, GridFont)
  }

  /** The dark patch under one grid label, where text can be measured. */
  function LabelPatch(axis: Axis, at: int, mm: int): Primitive {
    Rect(AroundText(Anchor(axis, at), MmLabel(mm), GridFont, 0), LabelBackground)
  }

  /** One label: its background patch when the text can be measured (a
      failed measurement is ignored and leaves no patch), then its text. */
  function LabelPrims(axis: Axis, at: int, mm: int, m: TextMetrics): seq<Primitive> {
    (if m.Measured? then [LabelPatch(axis, at, mm)] else [])
    + [LabelText(axis, at, mm)]
  }

  /** The values of the first `count` labels of an axis, one per coarse
      line, `i` being the line's index in its row. */
  function LabelValues(count: nat, cells: int, panelMm: int): seq<int> {
    seq(count, i requires 0 <= i < count => LabelMm(i, cells, panelMm))
  }

  /** The labels of the coarse lines at `positions`, reading `mms`. */
  function AxisLabels(axis: Axis, positions: seq<int>, mms: seq<int>, m: TextMetrics): seq<Primitive>
    requires |positions| == |mms|
    decreases |positions|
  {
    if positions == [] then []
    else
      LabelPrims(axis, positions[0], mms[0], m)
      + AxisLabels(axis, positions[1..], mms[1..], m)
  }

  /** The number of lines `range(0, dim, step)` yields for a non-zero step. */
  function LineCount(dim: nat, step: int): nat
    requires step != 0
  {
    if step > 0 then CeilDiv(dim, step) else 0
  }

  /** One grid: full-height lines at the columns of `range(0, width, step)`,
      then full-width lines at the rows of `range(0, height, step)`. */
  function Layer(width: nat, height: nat, step: int, color: Rgba, stroke: int): seq<Primitive>
    requires step != 0
  {
    Verticals(Range(width, step).value, height, color, stroke)
    + Horizontals(Range(height, step).value, width, color, stroke)
  }

  /** The labels of the coarse lines: along the top, then down the left. */
  function Labels(width: nat, height: nat, step: int, m: TextMetrics): seq<Primitive>
    requires step != 0
  {
    var xs := Range(width, step).value;
    var ys := Range(height, step).value;
    AxisLabels(Top, xs, LabelValues(|xs|, NumCells(width, step), PanelWidthMm), m)
    + AxisLabels(Left, ys, LabelValues(|ys|, NumCells(height, step), PanelHeightMm), m)
  }

  /** The overlay `overlay_grid` draws on a `width` x `height` image, in
      drawing order: the fine grid, the coarse grid, then the labels. A
      zero step makes `range` raise `ValueError`; a negative step draws no
      line of that grid. */
  function OverlayGrid(width: nat, height: nat, g: GridSpec, m: TextMetrics): (r: Result<seq<Primitive>, PyError>)
    ensures r.Failure? <==> g.stepSmall == 0 || g.stepLarge == 0
    ensures r.Failure? ==> r.error == ValueError
  {
    if g.stepSmall == 0 || g.stepLarge == 0 then Failure(ValueError)
    else
      Success(
        Layer(width, height, g.stepSmall, FineColor(g.opacity), FineStroke)
        + Layer(width, height, g.stepLarge, CoarseColor(g.opacity), CoarseStroke)
        + Labels(width, height, g.stepLarge, m))
  }
}
