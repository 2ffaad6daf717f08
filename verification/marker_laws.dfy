/** What the defect overlay promises: the shape of each marker, where its
    labels sit, which labels and backings it has, that the overlay holds one
    ring and one number per defect in list order, and when the legend
    appears and what it says. */
module MarkerLaws {
  import opened Wrappers
  import opened Python
  import opened Canvas
  import opened Defects
  import opened DefectLaws
  import opened Markers

  /** `b` is the box of a circle centred on `c`. */
  predicate CenteredOn(b: Box, c: Point) {
    b.x0 + b.x1 == 2 * c.x && b.y0 + b.y1 == 2 * c.y
  }

  /** `b` is a square box of half-side `r`. */
  predicate HalfSide(b: Box, r: int) {
    b.x1 - b.x0 == 2 * r && b.y1 - b.y0 == 2 * r
  }

  /** Box `a` lies strictly inside box `b`. */
  predicate Inside(a: Box, b: Box) {
    b.x0 < a.x0 && a.x1 < b.x1 && b.y0 < a.y0 && a.y1 < b.y1
  }

  /** A marker's figure: a ring of the marker's radius and colour, a white
      halo two pixels wider around it, a dot of radius 5 inside it and two
      crosshair arms of 16 pixels, all centred on the marker's centre; every
      part but the halo in the severity colour. */
  lemma FigureGeometry(mk: Marker)
    requires mk.radius >= MinRadiusPx
    ensures var f, c, color := Figure(mk), mk.center, ColorOf(mk.severity);
      && |f| == 5
      && f[0].Ellipse? && f[1].Ellipse? && f[2].Ellipse?
      && CenteredOn(f[0].box, c) && CenteredOn(f[1].box, c) && CenteredOn(f[2].box, c)
      && HalfSide(f[0].box, mk.radius) && HalfSide(f[1].box, mk.radius + 2) && HalfSide(f[2].box, DotRadius)
      && Inside(f[2].box, f[0].box) && Inside(f[0].box, f[1].box)
      && f[0].paint == Outline(color, RingStroke) && f[1].paint == Outline(HaloColor, HaloStroke)
      && f[2].paint == Fill(color)
      && f[3].Line? && f[4].Line?
      && f[3].from.y == f[3].to.y == c.y && f[3].from.x + f[3].to.x == 2 * c.x && f[3].to.x - f[3].from.x == 16
      && f[4].from.x == f[4].to.x == c.x && f[4].from.y + f[4].to.y == 2 * c.y && f[4].to.y - f[4].from.y == 16
      && f[3].color == color && f[4].color == color
      && f[3].width == CrossStroke && f[4].width == CrossStroke
  {
  }

  /** The circle of a marker. */
  function Ring(mk: Marker): Box {
    Around(mk.center, mk.radius)
  }

  /** The number sits 5 pixels left of the circle's box and 30 above it,
      the size 8 pixels under it starting at its left edge, and the
      coordinates 8 pixels to its right, 10 above the centre. */
  lemma LabelsAroundCircle(mk: Marker)
    ensures var b := Ring(mk);
      && IdAnchor(mk).x + 5 == b.x0 && IdAnchor(mk).y + 30 == b.y0
      && SizeAnchor(mk).x == b.x0 && SizeAnchor(mk).y == b.y1 + 8
      && CoordAnchor(mk).x == b.x1 + 8 && CoordAnchor(mk).y == mk.center.y - 10
  {
  }

  /** A label with its backing: one text, and the backing as its only
      rectangles. */
  lemma LabelOnly(at: Point, caption: Label, color: Rgba, font: FontRole, pad: int,
                  fallback: Option<(int, int)>, shade: Rgba, m: TextMetrics)
    ensures var b := Backing(at, caption, font, pad, fallback, shade, m);
      var l := b + [Text(at, caption, color, font)];
      && Only(TextKind, l) == [Text(at, caption, color, font)]
      && Only(RectKind, l) == b
  {
    var b := Backing(at, caption, font, pad, fallback, shade, m);
    var t := Text(at, caption, color, font);
    OnlyAppend(TextKind, b, [t]);
    OnlyAppend(RectKind, b, [t]);
    OnlySingle(TextKind, t);
    OnlySingle(RectKind, t);
    if b != [] {
      assert b == [b[0]];
      OnlySingle(TextKind, b[0]);
      OnlySingle(RectKind, b[0]);
    }
  }

  /** The texts of a marker, in drawing order. */
  function TextsOf(mk: Marker): seq<Primitive> {
    [Text(IdAnchor(mk), IdLabel(mk.id), ColorOf(mk.severity), LargeFont),
     Text(SizeAnchor(mk), SizeLabel(mk.diameterMm), White, SmallFont)]
    + if mk.coords.None? then []
      else [Text(CoordAnchor(mk), CoordLabel(mk.coords.value.0, mk.coords.value.1), CoordColor, SmallFont)]
  }

  /** The backings of a marker, in drawing order. */
  function BackingsOf(mk: Marker, m: TextMetrics): seq<Primitive> {
    Backing(IdAnchor(mk), IdLabel(mk.id), LargeFont, 3, Some((40, 25)), LabelShade, m)
    + Backing(SizeAnchor(mk), SizeLabel(mk.diameterMm), SmallFont, 3, Some((70, 20)), LabelShade, m)
    + if mk.coords.None? then []
      else Backing(CoordAnchor(mk), CoordLabel(mk.coords.value.0, mk.coords.value.1), SmallFont, 2, None, CoordShade, m)
  }

  /** Filtering a marker to its texts or its rectangles filters its three
      labels in turn; the figure holds neither. */
  lemma PartsOnly(mk: Marker, m: TextMetrics, k: Kind)
    requires k == TextKind || k == RectKind
    ensures Only(k, MarkerPrims(mk, m)) == Only(k, IdPrims(mk, m)) + Only(k, SizePrims(mk, m)) + Only(k, CoordPrims(mk, m))
  {
    var f, i, z, c := Figure(mk), IdPrims(mk, m), SizePrims(mk, m), CoordPrims(mk, m);
    OnlyAppend(k, f + i + z, c);
    OnlyAppend(k, f + i, z);
    OnlyAppend(k, f, i);
    OnlyNone(k, f);
  }

  /** The coordinate label of a marker, filtered. */
  lemma CoordOnly(mk: Marker, m: TextMetrics)
    ensures Only(TextKind, CoordPrims(mk, m))
         == if mk.coords.None? then []
            else [Text(CoordAnchor(mk), CoordLabel(mk.coords.value.0, mk.coords.value.1), CoordColor, SmallFont)]
    ensures Only(RectKind, CoordPrims(mk, m))
         == if mk.coords.None? then []
            else Backing(CoordAnchor(mk), CoordLabel(mk.coords.value.0, mk.coords.value.1), SmallFont, 2, None, CoordShade, m)
  {
    if mk.coords.Some? {
      LabelOnly(CoordAnchor(mk), CoordLabel(mk.coords.value.0, mk.coords.value.1), CoordColor, SmallFont, 2, None, CoordShade, m);
    }
  }

  /** A marker's texts and rectangles are its labels' texts and backings;
      its figure holds neither. */
  lemma MarkerParts(mk: Marker, m: TextMetrics)
    ensures Only(TextKind, MarkerPrims(mk, m)) == TextsOf(mk)
    ensures Only(RectKind, MarkerPrims(mk, m)) == BackingsOf(mk, m)
  {
    PartsOnly(mk, m, TextKind);
    PartsOnly(mk, m, RectKind);
    LabelOnly(IdAnchor(mk), IdLabel(mk.id), ColorOf(mk.severity), LargeFont, 3, Some((40, 25)), LabelShade, m);
    LabelOnly(SizeAnchor(mk), SizeLabel(mk.diameterMm), White, SmallFont, 3, Some((70, 20)), LabelShade, m);
    CoordOnly(mk, m);
  }

  /** The texts of a record's marker: its number in its colour, its size in
      white and, exactly when the record gives `x_mm`, its raw millimetre
      coordinates (a missing `y_mm` printed as 0) in grey. */
  lemma MarkerTexts(d: Defect, index: nat, s: Scale, m: TextMetrics)
    ensures var mk := Resolve(d, index, s);
      var t := Only(TextKind, MarkerPrims(mk, m));
      && |t| == (if d.xMm.Some? then 3 else 2)
      && t[0] == Text(IdAnchor(mk), IdLabel(d.id.GetOr(index)), ColorOf(Classify(d.severity)), LargeFont)
      && t[1] == Text(SizeAnchor(mk), SizeLabel(DiameterOf(d)), White, SmallFont)
      && (d.xMm.Some? ==>
            t[2] == Text(CoordAnchor(mk), CoordLabel(d.xMm.value, d.yMm.GetOr(0.0)), CoordColor, SmallFont))
  {
    MarkerParts(Resolve(d, index, s), m);
  }

  /** The padding a label's measured backing is widened by. */
  function PadOf(caption: Label): int {
    if caption.CoordLabel? then 2 else 3
  }

  /** The shade of a label's backing. */
  function ShadeOf(caption: Label): Rgba {
    if caption.CoordLabel? then CoordShade else LabelShade
  }

  /** With text measurement every label of a marker is drawn on a backing
      that is its own measured box, widened by 3 pixels (2 for the
      coordinates); without it, the number and size fall back to fixed
      boxes reaching from 3 pixels above-left of the text to 40 right and 25
      down of it (70 and 20 for the size), and the
      coordinates get no backing. */
  lemma MarkerBackings(mk: Marker, m: TextMetrics)
    ensures var r := MarkerPrims(mk, m);
      var t, b := Only(TextKind, r), Only(RectKind, r);
      && (m.Measured? ==> |b| == |t| && forall i :: 0 <= i < |t| ==>
            t[i].Text? && b[i] == Rect(AroundText(t[i].at, t[i].caption, t[i].font, PadOf(t[i].caption)), ShadeOf(t[i].caption)))
      && (m.Unmeasured? ==> b == [
            Rect(Fixed(Box(IdAnchor(mk).x - 3, IdAnchor(mk).y - 3, IdAnchor(mk).x + 40, IdAnchor(mk).y + 25)), LabelShade),
            Rect(Fixed(Box(SizeAnchor(mk).x - 3, SizeAnchor(mk).y - 3, SizeAnchor(mk).x + 70, SizeAnchor(mk).y + 20)), LabelShade)])
  {
    MarkerParts(mk, m);
    var t, b := TextsOf(mk), BackingsOf(mk, m);
    if m.Measured? {
      forall i | 0 <= i < |t|
        ensures t[i].Text? && b[i] == Rect(AroundText(t[i].at, t[i].caption, t[i].font, PadOf(t[i].caption)), ShadeOf(t[i].caption))
      {
      }
    }
  }

  /** Picking from a sequence that starts with one primitive `pick` finds. */
  lemma PickFirst<T>(p: Primitive, rest: seq<Primitive>, pick: Primitive -> Option<T>)
    requires pick(p).Some?
    requires forall i :: 0 <= i < |rest| ==> pick(rest[i]).None?
    ensures Pick([p] + rest, pick) == [pick(p).value]
  {
    assert ([p] + rest)[0] == p && ([p] + rest)[1..] == rest;
    PickNone(rest, pick);
  }

  /** The box of a main ring: an outlined ellipse of the ring's stroke. */
  function RingBox(p: Primitive): Option<Box> {
    if p.Ellipse? && p.paint.Outline? && p.paint.stroke == RingStroke then Some(p.box) else None
  }

  /** The number printed by a number label. */
  function Number(p: Primitive): Option<int> {
    if p.Text? && p.caption.IdLabel? then Some(p.caption.id) else None
  }

  /** A marker draws exactly one main ring: its own circle, drawn first. */
  lemma MarkerRing(mk: Marker, m: TextMetrics)
    ensures Pick(MarkerPrims(mk, m), RingBox) == [Ring(mk)]
  {
    var r := MarkerPrims(mk, m);
    assert r == [r[0]] + r[1..];
    PickFirst(r[0], r[1..], RingBox);
  }

  /** A marker prints exactly one number: its own id. */
  lemma MarkerNumber(mk: Marker, m: TextMetrics)
    ensures Pick(MarkerPrims(mk, m), Number) == [mk.id]
  {
    var f, i, z, c := Figure(mk), IdPrims(mk, m), SizePrims(mk, m), CoordPrims(mk, m);
    var b := Backing(IdAnchor(mk), IdLabel(mk.id), LargeFont, 3, Some((40, 25)), LabelShade, m);
    var it := Text(IdAnchor(mk), IdLabel(mk.id), ColorOf(mk.severity), LargeFont);
    assert Pick(i, Number) == [mk.id] by {
      assert i == b + [it];
      PickAppend(b, [it], Number);
      PickNone(b, Number);
      PickFirst(it, [], Number);
    }
    PickAppend(f + i + z, c, Number);
    PickAppend(f + i, z, Number);
    PickAppend(f, i, Number);
    PickNone(f, Number);
    PickNone(z, Number);
    PickNone(c, Number);
  }

  /** The marker of the `i`-th record, numbered from `first`. */
  function MarkerAt(defects: seq<Defect>, first: nat, s: Scale, i: nat): Marker
    requires i < |defects|
  {
    Resolve(defects[i], first + i, s)
  }

  /** The rings of a run of markers are the markers' circles, one per
      record, in list order. */
  lemma {:induction false} AllRings(defects: seq<Defect>, first: nat, s: Scale, m: TextMetrics)
    ensures var r := Pick(AllMarkers(defects, first, s, m), RingBox);
      |r| == |defects| && forall i :: 0 <= i < |defects| ==> r[i] == Ring(MarkerAt(defects, first, s, i))
    decreases |defects|
  {
    if defects != [] {
      var head := MarkerPrims(Resolve(defects[0], first, s), m);
      var tail := AllMarkers(defects[1..], first + 1, s, m);
      PickAppend(head, tail, RingBox);
      MarkerRing(Resolve(defects[0], first, s), m);
      AllRings(defects[1..], first + 1, s, m);
      var r, r' := Pick(head + tail, RingBox), Pick(tail, RingBox);
      forall i | 1 <= i < |defects|
        ensures r[i] == Ring(MarkerAt(defects, first, s, i))
      {
        assert r[i] == r'[i - 1];
        assert defects[1..][i - 1] == defects[i];
      }
    }
  }

  /** The numbers of a run of markers are the markers' ids, one per record,
      in list order. */
  lemma {:induction false} AllNumbers(defects: seq<Defect>, first: nat, s: Scale, m: TextMetrics)
    ensures var n := Pick(AllMarkers(defects, first, s, m), Number);
      |n| == |defects| && forall i :: 0 <= i < |defects| ==> n[i] == MarkerAt(defects, first, s, i).id
    decreases |defects|
  {
    if defects != [] {
      var head := MarkerPrims(Resolve(defects[0], first, s), m);
      var tail := AllMarkers(defects[1..], first + 1, s, m);
      PickAppend(head, tail, Number);
      MarkerNumber(Resolve(defects[0], first, s), m);
      AllNumbers(defects[1..], first + 1, s, m);
      var n, n' := Pick(head + tail, Number), Pick(tail, Number);
      forall i | 1 <= i < |defects|
        ensures n[i] == MarkerAt(defects, first, s, i).id
      {
        assert n[i] == n'[i - 1];
        assert defects[1..][i - 1] == defects[i];
      }
    }
  }

  /** Whether a primitive belongs to the legend: its panel, title, words or
      total. */
  predicate LegendPart(p: Primitive) {
    || (p.Rect? && p.area.Fixed? && p.fill == LegendShade)
    || (p.Text? && (p.caption.LegendTitle? || p.caption.LegendHigh? || p.caption.LegendMedium?
                    || p.caption.LegendLow? || p.caption.LegendTotal?))
  }

  /** Markers draw nothing that looks like a legend. */
  lemma {:induction false} MarkersAreNotLegend(defects: seq<Defect>, first: nat, s: Scale, m: TextMetrics)
    ensures forall p :: p in AllMarkers(defects, first, s, m) ==> !LegendPart(p)
    decreases |defects|
  {
    if defects != [] {
      MarkersAreNotLegend(defects[1..], first + 1, s, m);
    }
  }

  /** The overlay is the markers, in list order, then the legend if there
      is any defect. */
  lemma OverlayParts(width: nat, height: nat, panelW: real, panelH: real, defects: seq<Defect>, m: TextMetrics)
    requires panelW != 0.0 && panelH != 0.0
    ensures var s := ScaleFor(width, height, panelW, panelH).value;
      MarkDefects(width, height, panelW, panelH, defects, m).value
      == AllMarkers(defects, 1, s, m) + (if defects == [] then [] else Legend(width, |defects|))
  {
  }

  /** The rings of the overlay on a panel with non-zero dimensions are the
      records' circles, one per record, in list order. */
  lemma RingPerDefect(width: nat, height: nat, panelW: real, panelH: real, defects: seq<Defect>, m: TextMetrics)
    requires panelW != 0.0 && panelH != 0.0
    ensures var s := ScaleFor(width, height, panelW, panelH).value;
      var rings := Pick(MarkDefects(width, height, panelW, panelH, defects, m).value, RingBox);
      && |rings| == |defects|
      && forall i :: 0 <= i < |defects| ==> rings[i] == Ring(MarkerAt(defects, 1, s, i))
  {
    var s := ScaleFor(width, height, panelW, panelH).value;
    var a := AllMarkers(defects, 1, s, m);
    var l := if defects == [] then [] else Legend(width, |defects|);
    OverlayParts(width, height, panelW, panelH, defects, m);
    PickAppend(a, l, RingBox);
    PickNone(l, RingBox);
    AllRings(defects, 1, s, m);
  }

  /** The numbers printed on the overlay are the records' ids, one per
      record, in list order, a record without one numbered by its 1-based
      position. */
  lemma NumberPerDefect(width: nat, height: nat, panelW: real, panelH: real, defects: seq<Defect>, m: TextMetrics)
    requires panelW != 0.0 && panelH != 0.0
    ensures var numbers := Pick(MarkDefects(width, height, panelW, panelH, defects, m).value, Number);
      && |numbers| == |defects|
      && forall i :: 0 <= i < |defects| ==> numbers[i] == defects[i].id.GetOr(i + 1)
  {
    var s := ScaleFor(width, height, panelW, panelH).value;
    var a := AllMarkers(defects, 1, s, m);
    var l := if defects == [] then [] else Legend(width, |defects|);
    OverlayParts(width, height, panelW, panelH, defects, m);
    PickAppend(a, l, Number);
    PickNone(l, Number);
    AllNumbers(defects, 1, s, m);
    forall i | 0 <= i < |defects|
      ensures MarkerAt(defects, 1, s, i).id == defects[i].id.GetOr(i + 1)
    {
      IdDefaultsToPosition(defects[i], i + 1, s);
    }
  }

  /** The legend's total: it is drawn, at `(width - 130, 73)`, exactly when
      the list is not empty, and it counts the records. */
  lemma LegendTotalShown(width: nat, height: nat, panelW: real, panelH: real, defects: seq<Defect>, m: TextMetrics, n: nat)
    requires panelW != 0.0 && panelH != 0.0
    ensures var r := MarkDefects(width, height, panelW, panelH, defects, m).value;
      Text(Point(width - 130, 73), LegendTotal(n), White, SmallFont) in r <==> defects != [] && n == |defects|
  {
    var s := ScaleFor(width, height, panelW, panelH).value;
    var a := AllMarkers(defects, 1, s, m);
    var l := if defects == [] then [] else Legend(width, |defects|);
    assert MarkDefects(width, height, panelW, panelH, defects, m).value == a + l;
    MarkersAreNotLegend(defects, 1, s, m);
    var total := Text(Point(width - 130, 73), LegendTotal(n), White, SmallFont);
    assert LegendPart(total);
    if defects != [] && n == |defects| {
      assert l[8] == total;
    }
  }

  /** The legend is drawn exactly when the list is not empty. */
  lemma LegendIffDefects(width: nat, height: nat, panelW: real, panelH: real, defects: seq<Defect>, m: TextMetrics)
    requires panelW != 0.0 && panelH != 0.0
    ensures var r := MarkDefects(width, height, panelW, panelH, defects, m).value;
      (exists p :: p in r && LegendPart(p)) <==> defects != []
  {
    var s := ScaleFor(width, height, panelW, panelH).value;
    var a := AllMarkers(defects, 1, s, m);
    var r := MarkDefects(width, height, panelW, panelH, defects, m).value;
    OverlayParts(width, height, panelW, panelH, defects, m);
    MarkersAreNotLegend(defects, 1, s, m);
    if defects != [] {
      var l := Legend(width, |defects|);
      assert r[|a|] == l[0];
      assert LegendPart(r[|a|]);
    } else {
      assert r == a;
    }
  }

  /** The legend's panel spans from 210 to 10 pixels left of the right edge
      and from row 10 to row 110; its title is at `(width - 200, 20)`. */
  lemma LegendPlacement(width: int, count: nat)
    ensures var l := Legend(width, count);
      && l[0] == Rect(Fixed(Box(width - 210, 10, width - 10, 110)), LegendShade)
      && l[1] == Text(Point(width - 200, 20), LegendTitle, White, LargeFont)
      && l[|l| - 1] == Text(Point(width - 130, 73), LegendTotal(count), White, SmallFont)
  {
  }

  /** The legend word of a class. */
  function WordOf(sv: Severity): Label {
    match sv
    case High => LegendHigh
    case Medium => LegendMedium
    case Low => LegendLow
  }

  /** In legend `l`, entry `j` is a swatch filled with the colour of class
      `sv` and entry `j + 1` the class's word, 18 pixels right of the
      swatch's left edge and 2 above its top. */
  predicate SwatchAt(l: seq<Primitive>, j: int, sv: Severity) {
    && 0 <= j < |l| - 1
    && l[j].Ellipse? && l[j].paint == Fill(ColorOf(sv))
    && l[j + 1] == Text(Point(l[j].box.x0 + 18, l[j].box.y0 - 2), WordOf(sv), White, SmallFont)
  }

  /** The legend shows, for each class, a swatch filled with exactly the
      colour the markers of that class are drawn in, beside the class's
      word. */
  lemma LegendSwatches(width: int, count: nat)
    ensures exists j :: SwatchAt(Legend(width, count), j, High)
    ensures exists j :: SwatchAt(Legend(width, count), j, Medium)
    ensures exists j :: SwatchAt(Legend(width, count), j, Low)
  {
    var l := Legend(width, count);
    assert SwatchAt(l, 2, High);
    assert SwatchAt(l, 4, Medium);
    assert SwatchAt(l, 6, Low);
  }

  /** One record in millimetres on a 1000 x 1000 image of a 100 x 100 mm
      panel: 10 px per mm, so (10, 10) mm is pixel (100, 100), and a 5 mm
      "high" defect gets a red ring of radius 25, number 1, and a legend
      counting one defect. */
  lemma WorkedExample()
    ensures var d := Defect(None, Some(10.0), Some(10.0), None, None, Some(5.0), None, Some("high"));
      var r := MarkDefects(1000, 1000, 100.0, 100.0, [d], Measured);
      && r.Success?
      && r.value[0] == Ellipse(Box(75, 75, 125, 125), Outline(Rgba(255, 0, 0, 255), 4))
      && Text(Point(70, 45), IdLabel(1), Rgba(255, 0, 0, 255), LargeFont) in r.value
      && Text(Point(870, 73), LegendTotal(1), White, SmallFont) in r.value
  {
    var d := Defect(None, Some(10.0), Some(10.0), None, None, Some(5.0), None, Some("high"));
    var s := Scale(10.0, 10.0);
    assert ScaleFor(1000, 1000, 100.0, 100.0) == Success(s);
    assert Trunc(100.0) == 100 by {
      DropsFractionUnique(100.0, Trunc(100.0), 100);
    }
    assert Trunc(25.0) == 25 by {
      DropsFractionUnique(25.0, Trunc(25.0), 25);
    }
    assert Classify(Some("high")) == High by {
      ClassifyHigh("high");
    }
    var mk := Resolve(d, 1, s);
    assert mk.center == Point(100, 100) && mk.radius == 25 && mk.severity == High && mk.id == 1;
    var r := MarkDefects(1000, 1000, 100.0, 100.0, [d], Measured).value;
    assert r == MarkerPrims(mk, Measured) + Legend(1000, 1) by {
      assert AllMarkers([d], 1, s, Measured) == MarkerPrims(mk, Measured) + AllMarkers([], 2, s, Measured);
    }
    assert MarkerPrims(mk, Measured)[6] == Text(Point(70, 45), IdLabel(1), Rgba(255, 0, 0, 255), LargeFont);
    LegendTotalShown(1000, 1000, 100.0, 100.0, [d], Measured, 1);
  }

  /** Whether a caption is one of a marker's own labels. */
  predicate MarkerCaption(caption: Label) {
    caption.IdLabel? || caption.SizeLabel? || caption.CoordLabel?
  }

  /** The backing a marker label's text is drawn on when text can be
      measured: its own box widened by the label's padding. */
  function MeasuredBacking(p: Primitive): Option<Primitive> {
    if p.Text? && MarkerCaption(p.caption) then
      Some(Rect(AroundText(p.at, p.caption, p.font, PadOf(p.caption)), ShadeOf(p.caption)))
    else None
  }

  /** The backing a marker label's text is drawn on when text cannot be
      measured: a fixed box from 3 pixels above-left of the text reaching 40
      pixels right and 25 down of it for the number, 70 and 20 for the size;
      none for the
      coordinates. */
  function FixedBacking(p: Primitive): Option<Primitive> {
    if p.Text? && (p.caption.IdLabel? || p.caption.SizeLabel?) then
      var reach := if p.caption.IdLabel? then (40, 25) else (70, 20);
      Some(Rect(Fixed(Box(p.at.x - 3, p.at.y - 3, p.at.x + reach.0, p.at.y + reach.1)), LabelShade))
    else None
  }

  /** The backings a marker label needs under text metrics `m`. */
  function BackingFor(m: TextMetrics): Primitive -> Option<Primitive> {
    if m.Measured? then MeasuredBacking else FixedBacking
  }

  /** A label with its backing is drawn backing first. */
  lemma LabelBacked(at: Point, caption: Label, color: Rgba, font: FontRole, pad: int,
                    fallback: Option<(int, int)>, shade: Rgba, m: TextMetrics)
    requires MarkerCaption(caption) && pad == PadOf(caption) && shade == ShadeOf(caption)
    requires fallback == (if caption.IdLabel? then Some((40, 25)) else if caption.SizeLabel? then Some((70, 20)) else None)
    ensures Backed(Backing(at, caption, font, pad, fallback, shade, m) + [Text(at, caption, color, font)], BackingFor(m))
  {
  }

  /** Within one marker every label's text is drawn directly after its own
      backing. */
  lemma MarkerBackedInOrder(mk: Marker, m: TextMetrics)
    ensures Backed(MarkerPrims(mk, m), BackingFor(m))
  {
    var back := BackingFor(m);
    var f, i, z, c := Figure(mk), IdPrims(mk, m), SizePrims(mk, m), CoordPrims(mk, m);
    BackedNone(f, back);
    LabelBacked(IdAnchor(mk), IdLabel(mk.id), ColorOf(mk.severity), LargeFont, 3, Some((40, 25)), LabelShade, m);
    LabelBacked(SizeAnchor(mk), SizeLabel(mk.diameterMm), White, SmallFont, 3, Some((70, 20)), LabelShade, m);
    if mk.coords.Some? {
      LabelBacked(CoordAnchor(mk), CoordLabel(mk.coords.value.0, mk.coords.value.1), CoordColor, SmallFont, 2, None, CoordShade, m);
    }
    BackedAppend(f, i, back);
    BackedAppend(f + i, z, back);
    BackedAppend(f + i + z, c, back);
  }

  /** A run of markers draws every label directly on its backing. */
  lemma {:induction false} AllMarkersBacked(defects: seq<Defect>, first: nat, s: Scale, m: TextMetrics)
    ensures Backed(AllMarkers(defects, first, s, m), BackingFor(m))
    decreases |defects|
  {
    if defects != [] {
      MarkerBackedInOrder(Resolve(defects[0], first, s), m);
      AllMarkersBacked(defects[1..], first + 1, s, m);
      BackedAppend(MarkerPrims(Resolve(defects[0], first, s), m), AllMarkers(defects[1..], first + 1, s, m), BackingFor(m));
    }
  }

  /** On the whole overlay every number, size and coordinate text is drawn
      directly after its own backing: its measured box widened by 3 (2 for
      the coordinates) pixels, or, when text cannot be measured, the fixed
      box of the number or the size. A backing therefore never hides its
      text. */
  lemma OverlayBacked(width: nat, height: nat, panelW: real, panelH: real, defects: seq<Defect>, m: TextMetrics)
    requires panelW != 0.0 && panelH != 0.0
    ensures Backed(MarkDefects(width, height, panelW, panelH, defects, m).value, BackingFor(m))
  {
    var s := ScaleFor(width, height, panelW, panelH).value;
    var a := AllMarkers(defects, 1, s, m);
    var l := if defects == [] then [] else Legend(width, |defects|);
    AllMarkersBacked(defects, 1, s, m);
    BackedNone(l, BackingFor(m));
    BackedAppend(a, l, BackingFor(m));
    OverlayParts(width, height, panelW, panelH, defects, m);
  }

  /** The default 500 x 400 mm panel never makes the overlay fail, whatever
      the image size; on a 1000-pixel-wide image (2 pixels per millimetre) a
      record giving no diameter is drawn as a 10 mm defect whose 10-pixel
      radius is raised to the 15-pixel minimum. */
  lemma DefaultPanel(width: nat, height: nat, defects: seq<Defect>, m: TextMetrics, d: Defect, index: nat)
    ensures MarkDefects(width, height, DefaultPanelWidthMm, DefaultPanelHeightMm, defects, m).Success?
    ensures d.diameterMm.None? && d.size.None? ==>
      var mk := Resolve(d, index, ScaleFor(1000, height, DefaultPanelWidthMm, DefaultPanelHeightMm).value);
      mk.diameterMm == 10.0 && mk.radius == MinRadiusPx
  {
    var s := ScaleFor(1000, height, DefaultPanelWidthMm, DefaultPanelHeightMm).value;
    assert s.x == 2.0;
    assert Trunc(10.0 / 2.0 * s.x) == 10;
  }
}
