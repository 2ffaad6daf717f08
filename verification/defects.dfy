/** How `mark_defects` reads one defect record: where its marker goes, how
    large the circle is, and which colour it takes. */
module Defects {
  import opened Wrappers
  import opened Python
  import opened Canvas

  /** A defect record as the request carries it. Every key may be missing;
      numbers are taken as the floats `float()` or `int()` would accept. */
  datatype Defect = Defect(
    id: Option<int>,
    xMm: Option<real>,
    yMm: Option<real>,
    x: Option<real>,
    y: Option<real>,
    diameterMm: Option<real>,
    size: Option<real>,
    severity: Option<string>)

  /** Where a defect is: in millimetres on the panel, or (the legacy form)
      directly in pixels. */
  datatype Position = Millimetres(xMm: real, yMm: real) | Pixels(x: real, y: real)

  /** The form of a record's position is decided by the presence of `x_mm`
      alone; a missing `y_mm`, `x` or `y` reads as 0. */
  function PositionOf(d: Defect): Position {
    if d.xMm.Some? then Millimetres(d.xMm.value, d.yMm.GetOr(0.0))
    else Pixels(d.x.GetOr(0.0), d.y.GetOr(0.0))
  }

  /** Pixels per millimetre along each axis of the image. */
  datatype Scale = Scale(x: real, y: real)

  /** The scale of a `width` x `height` image of a panel measuring `panelW`
      x `panelH` mm. A zero panel dimension raises `ZeroDivisionError`
      before any defect is looked at. */
  function ScaleFor(width: nat, height: nat, panelW: real, panelH: real): (r: Result<Scale, PyError>)
    ensures r.Failure? <==> panelW == 0.0 || panelH == 0.0
    ensures r.Failure? ==> r.error == ZeroDivisionError
    ensures r.Success? ==> r.value.x * panelW == width as real && r.value.y * panelH == height as real
  {
    if panelW == 0.0 || panelH == 0.0 then Failure(ZeroDivisionError)
    else Success(Scale(width as real / panelW, height as real / panelH))
  }

  /** The marker centre: millimetres times the scale, or the legacy pixels,
      each passed through `int()`. */
  function CenterOf(p: Position, s: Scale): (c: Point)
    ensures p.Millimetres? ==> DropsFraction(p.xMm * s.x, c.x) && DropsFraction(p.yMm * s.y, c.y)
    ensures p.Pixels? ==> DropsFraction(p.x, c.x) && DropsFraction(p.y, c.y)
  {
    match p
    case Millimetres(xMm, yMm) => Point(Trunc(xMm * s.x), Trunc(yMm * s.y))
    case Pixels(x, y) => Point(Trunc(x), Trunc(y))
  }

  /** The diameter a record gives when it gives none. */
  const DefaultDiameterMm: real := 10.0

  /** The smallest and largest circle radius drawn, in pixels. */
  const MinRadiusPx: int := 15
  const MaxRadiusPx: int := 100

  /** The diameter in millimetres: `diameter_mm`, else the legacy `size`,
      else 10 mm. */
  function DiameterOf(d: Defect): real {
    d.diameterMm.GetOr(d.size.GetOr(DefaultDiameterMm))
  }

  /** The circle radius in pixels: half the diameter at the horizontal
      scale, truncated, then raised to 15 and lowered to 100. Of all radii
      the renderer may draw it is the one closest to the truncated value. */
  function RadiusPx(diameterMm: real, scaleX: real): (r: int)
    ensures MinRadiusPx <= r <= MaxRadiusPx
    ensures var raw := Trunc(diameterMm / 2.0 * scaleX);
      forall k :: MinRadiusPx <= k <= MaxRadiusPx ==> Dist(r, raw) <= Dist(k, raw)
  {
    var raw := Trunc(diameterMm / 2.0 * scaleX);
    var raised := if raw < MinRadiusPx then MinRadiusPx else raw;
    if raised > MaxRadiusPx then MaxRadiusPx else raised
  }

  /** The distance between two integers. */
  function Dist(a: int, b: int): nat {
    if a <= b then b - a else a - b
  }

  /** The three severity classes a marker can take. */
  datatype Severity = High | Medium | Low

  /** One character lower-cased: A-Z become a-z, everything else stays. */
  function LowerChar(c: char): char {
    if 'A' <= c <= 'Z' then (c as int + 32) as char else c
  }

  /** `s.lower()` over the ASCII letters: every capital becomes its small
      letter, 32 code points up; every other character is kept; no capital
      is left. */
  function Lower(s: string): (r: string)
    ensures |r| == |s|
    ensures forall i :: 0 <= i < |s| && 'A' <= s[i] <= 'Z' ==> r[i] as int == s[i] as int + 32
    ensures forall i :: 0 <= i < |s| && !('A' <= s[i] <= 'Z') ==> r[i] == s[i]
    ensures forall i :: 0 <= i < |r| ==> !('A' <= r[i] <= 'Z')
  {
    seq(|s|, i requires 0 <= i < |s| => LowerChar(s[i]))
  }

  /** The class of a record's severity: "high" and "medium" in any letter
      case, a missing key counting as "medium"; every other word, whether
      "low" or not, is the low class. */
  function Classify(severity: Option<string>): Severity {
    var word := Lower(severity.GetOr("medium"));
    if word == "high" then High
    else if word == "medium" then Medium
    else Low
  }

  /** The colour of a class: red, orange, or yellow. */
  function ColorOf(s: Severity): Rgba {
    match s
    case High => Rgba(255, 0, 0, 255)
    case Medium => Rgba(255, 140, 0, 255)
    case Low => Rgba(255, 200, 0, 255)
  }

  /** Everything the renderer derives from one record. `coords` is the pair
      the coordinate label prints, present only for the millimetre form. */
  datatype Marker = Marker(
    id: int,
    center: Point,
    radius: int,
    diameterMm: real,
    severity: Severity,
    coords: Option<(real, real)>)

  /** The marker of the record at 1-based position `index`. */
  function Resolve(d: Defect, index: nat, s: Scale): (mk: Marker)
    ensures MinRadiusPx <= mk.radius <= MaxRadiusPx
    ensures mk.coords.Some? <==> PositionOf(d).Millimetres?
  {
    var dia := DiameterOf(d);
    Marker(
      d.id.GetOr(index),
      CenterOf(PositionOf(d), s),
      RadiusPx(dia, s.x),
      dia,
      Classify(d.severity),
      if d.xMm.Some? then Some((d.xMm.value, d.yMm.GetOr(0.0))) else None)
  }
}
