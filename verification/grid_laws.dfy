/** What the grid overlay promises: where its lines are, which labels it
    prints and where, and how the label values behave. */
module GridLaws {
  import opened Wrappers
  import opened Python
  import opened Canvas
  import opened Grid

  /** One label draws its text, after its patch when text can be measured. */
  lemma LabelPrimsParts(axis: Axis, at: int, mm: int, m: TextMetrics)
    ensures Only(TextKind, LabelPrims(axis, at, mm, m)) == [LabelText(axis, at, mm)]
    ensures Only(RectKind, LabelPrims(axis, at, mm, m))
         == if m.Measured? then [LabelPatch(axis, at, mm)] else []
  {
    var text := LabelText(axis, at, mm);
    if m.Measured? {
      var patch := LabelPatch(axis, at, mm);
      assert LabelPrims(axis, at, mm, m) == [patch, text];
      OnlyCons(TextKind, patch, [text]);
      OnlyCons(RectKind, patch, [text]);
      OnlySingle(TextKind, text);
      OnlySingle(RectKind, text);
    } else {
      assert LabelPrims(axis, at, mm, m) == [text];
      OnlySingle(TextKind, text);
      OnlySingle(RectKind, text);
    }
  }

  /** Filtering a label row filters its first label, then the rest. */
  lemma AxisLabelsCons(k: Kind, axis: Axis, positions: seq<int>, mms: seq<int>, m: TextMetrics)
    requires |positions| == |mms| && positions != []
    ensures Only(k, AxisLabels(axis, positions, mms, m))
         == Only(k, LabelPrims(axis, positions[0], mms[0], m)) + Only(k, AxisLabels(axis, positions[1..], mms[1..], m))
  {
    OnlyAppend(k, LabelPrims(axis, positions[0], mms[0], m), AxisLabels(axis, positions[1..], mms[1..], m));
  }

  /** The texts of a label row are its labels' texts, in order. */
  lemma {:induction false} AxisLabelsTexts(axis: Axis, positions: seq<int>, mms: seq<int>, m: TextMetrics)
    requires |positions| == |mms|
    ensures var t := Only(TextKind, AxisLabels(axis, positions, mms, m));
      |t| == |positions| && forall i :: 0 <= i < |positions| ==> t[i] == LabelText(axis, positions[i], mms[i])
    decreases |positions|
  {
    if positions != [] {
      var t := Only(TextKind, AxisLabels(axis, positions, mms, m));
      var t' := Only(TextKind, AxisLabels(axis, positions[1..], mms[1..], m));
      assert t == [LabelText(axis, positions[0], mms[0])] + t' by {
        AxisLabelsCons(TextKind, axis, positions, mms, m);
        LabelPrimsParts(axis, positions[0], mms[0], m);
      }
      AxisLabelsTexts(axis, positions[1..], mms[1..], m);
      TextsCons(axis, positions, mms, t');
    }
  }

  /** Texts matching the labels after the first, behind the first label's
      text, match all the labels. */
  lemma TextsCons(axis: Axis, positions: seq<int>, mms: seq<int>, t': seq<Primitive>)
    requires |positions| == |mms| && positions != [] && |t'| == |positions| - 1
    requires forall i :: 0 <= i < |t'| ==> t'[i] == LabelText(axis, positions[1..][i], mms[1..][i])
    ensures var t := [LabelText(axis, positions[0], mms[0])] + t';
      forall i :: 0 <= i < |positions| ==> t[i] == LabelText(axis, positions[i], mms[i])
  {
    var t := [LabelText(axis, positions[0], mms[0])] + t';
    forall i | 1 <= i < |positions|
      ensures t[i] == LabelText(axis, positions[i], mms[i])
    {
      assert t[i] == t'[i - 1];
      assert positions[1..][i - 1] == positions[i] && mms[1..][i - 1] == mms[i];
    }
  }

  /** Without text measurement a label row has no background patch. */
  lemma {:induction false} AxisLabelsUnpatched(axis: Axis, positions: seq<int>, mms: seq<int>, m: TextMetrics)
    requires |positions| == |mms| && m.Unmeasured?
    ensures Only(RectKind, AxisLabels(axis, positions, mms, m)) == []
    decreases |positions|
  {
    if positions != [] {
      AxisLabelsCons(RectKind, axis, positions, mms, m);
      LabelPrimsParts(axis, positions[0], mms[0], m);
      AxisLabelsUnpatched(axis, positions[1..], mms[1..], m);
    }
  }

  /** With text measurement a label row has one patch per label, exactly
      the label's measured box. */
  lemma {:induction false} AxisLabelsPatched(axis: Axis, positions: seq<int>, mms: seq<int>, m: TextMetrics)
    requires |positions| == |mms| && m.Measured?
    ensures var p := Only(RectKind, AxisLabels(axis, positions, mms, m));
      |p| == |positions| && forall i :: 0 <= i < |positions| ==> p[i] == LabelPatch(axis, positions[i], mms[i])
    decreases |positions|
  {
    if positions != [] {
      var p := Only(RectKind, AxisLabels(axis, positions, mms, m));
      var p' := Only(RectKind, AxisLabels(axis, positions[1..], mms[1..], m));
      assert p == [LabelPatch(axis, positions[0], mms[0])] + p' by {
        AxisLabelsCons(RectKind, axis, positions, mms, m);
        LabelPrimsParts(axis, positions[0], mms[0], m);
      }
      AxisLabelsPatched(axis, positions[1..], mms[1..], m);
      forall i | 1 <= i < |positions|
        ensures p[i] == LabelPatch(axis, positions[i], mms[i])
      {
        assert p[i] == p'[i - 1];
        assert positions[1..][i - 1] == positions[i] && mms[1..][i - 1] == mms[i];
      }
    }
  }

  /** A label row draws no line. */
  lemma {:induction false} AxisLabelsHaveNoLines(axis: Axis, positions: seq<int>, mms: seq<int>, m: TextMetrics)
    requires |positions| == |mms|
    ensures forall i :: 0 <= i < |AxisLabels(axis, positions, mms, m)| ==> !AxisLabels(axis, positions, mms, m)[i].Line?
    decreases |positions|
  {
    if positions != [] {
      AxisLabelsHaveNoLines(axis, positions[1..], mms[1..], m);
    }
  }

  /** A full-height line at column `x` is in a row of full-width lines only
      on an empty canvas, where it is the line at row 0. */
  lemma VerticalNotHorizontal(x: int, height: nat, width: nat, ys: seq<int>, c: Rgba, c': Rgba, w: int, w': int)
    ensures Vertical(x, height, c, w) in Horizontals(ys, width, c', w') ==> height == 0 && 0 in ys
  {
    if Vertical(x, height, c, w) in Horizontals(ys, width, c', w') {
      var i :| 0 <= i < |ys| && Horizontals(ys, width, c', w')[i] == Vertical(x, height, c, w);
      assert ys[i] == 0;
    }
  }

  /** The same, with the roles of rows and columns swapped. */
  lemma HorizontalNotVertical(y: int, width: nat, height: nat, xs: seq<int>, c: Rgba, c': Rgba, w: int, w': int)
    ensures Horizontal(y, width, c, w) in Verticals(xs, height, c', w') ==> width == 0 && 0 in xs
  {
    if Horizontal(y, width, c, w) in Verticals(xs, height, c', w') {
      var i :| 0 <= i < |xs| && Verticals(xs, height, c', w')[i] == Horizontal(y, width, c, w);
      assert xs[i] == 0;
    }
  }

  /** The labels draw no line. */
  lemma LabelsHaveNoLines(width: nat, height: nat, step: int, m: TextMetrics)
    requires step != 0
    ensures Only(LineKind, Labels(width, height, step, m)) == []
  {
    var xs := Range(width, step).value;
    var ys := Range(height, step).value;
    AxisLabelsHaveNoLines(Top, xs, LabelValues(|xs|, NumCells(width, step), PanelWidthMm), m);
    AxisLabelsHaveNoLines(Left, ys, LabelValues(|ys|, NumCells(height, step), PanelHeightMm), m);
    OnlyNone(LineKind, Labels(width, height, step, m));
  }

  /** One grid holds a full-height line of its colour and stroke at column
      `x` exactly when `x` is a multiple of the step inside the image, and
      a full-width line at row `y` likewise; it holds no line of another
      colour or stroke. */
  lemma LayerMembers(width: nat, height: nat, step: int, color: Rgba, stroke: int, c: Rgba, w: int, z: int)
    requires step != 0
    ensures Vertical(z, height, c, w) in Layer(width, height, step, color, stroke)
        <==> c == color && w == stroke && step > 0 && 0 <= z < width && z % step == 0
    ensures Horizontal(z, width, c, w) in Layer(width, height, step, color, stroke)
        <==> c == color && w == stroke && step > 0 && 0 <= z < height && z % step == 0
  {
    var xs := Range(width, step).value;
    var ys := Range(height, step).value;
    VerticalNotHorizontal(z, height, width, ys, c, color, w, stroke);
    HorizontalNotVertical(z, width, height, xs, c, color, w, stroke);
    if Vertical(z, height, c, w) in Verticals(xs, height, color, stroke) {
      var i :| 0 <= i < |xs| && Verticals(xs, height, color, stroke)[i] == Vertical(z, height, c, w);
      assert xs[i] == z;
    }
    if c == color && w == stroke && z in xs {
      var i :| 0 <= i < |xs| && xs[i] == z;
      assert Verticals(xs, height, color, stroke)[i] == Vertical(z, height, c, w);
    }
    if Horizontal(z, width, c, w) in Horizontals(ys, width, color, stroke) {
      var i :| 0 <= i < |ys| && Horizontals(ys, width, color, stroke)[i] == Horizontal(z, width, c, w);
      assert ys[i] == z;
    }
    if c == color && w == stroke && z in ys {
      var i :| 0 <= i < |ys| && ys[i] == z;
      assert Horizontals(ys, width, color, stroke)[i] == Horizontal(z, width, c, w);
    }
  }

  /** One grid draws a line per column and per row `range` yields. */
  lemma LayerCount(width: nat, height: nat, step: int, color: Rgba, stroke: int)
    requires step != 0
    ensures Only(LineKind, Layer(width, height, step, color, stroke)) == Layer(width, height, step, color, stroke)
    ensures |Layer(width, height, step, color, stroke)| == LineCount(width, step) + LineCount(height, step)
  {
    OnlyAll(LineKind, Layer(width, height, step, color, stroke));
  }

  /** The grid's lines: a fine line, light and one pixel wide, at every
      multiple of the fine step below the image's width (columns) and
      height (rows); a coarse line, darker and three pixels wide, at every
      multiple of the coarse step; no other line. A negative step draws
      no line of its grid. */
  lemma GridLines(width: nat, height: nat, g: GridSpec, m: TextMetrics)
    requires g.stepSmall != 0 && g.stepLarge != 0
    ensures var r := OverlayGrid(width, height, g, m).value;
      && (forall x :: Vertical(x, height, FineColor(g.opacity), FineStroke) in r
                  <==> g.stepSmall > 0 && 0 <= x < width && x % g.stepSmall == 0)
      && (forall y :: Horizontal(y, width, FineColor(g.opacity), FineStroke) in r
                  <==> g.stepSmall > 0 && 0 <= y < height && y % g.stepSmall == 0)
      && (forall x :: Vertical(x, height, CoarseColor(g.opacity), CoarseStroke) in r
                  <==> g.stepLarge > 0 && 0 <= x < width && x % g.stepLarge == 0)
      && (forall y :: Horizontal(y, width, CoarseColor(g.opacity), CoarseStroke) in r
                  <==> g.stepLarge > 0 && 0 <= y < height && y % g.stepLarge == 0)
      && |Only(LineKind, r)| == LineCount(width, g.stepSmall) + LineCount(height, g.stepSmall)
                                + LineCount(width, g.stepLarge) + LineCount(height, g.stepLarge)
  {
    var fine, coarse := FineColor(g.opacity), CoarseColor(g.opacity);
    var a := Layer(width, height, g.stepSmall, fine, FineStroke);
    var b := Layer(width, height, g.stepLarge, coarse, CoarseStroke);
    var c := Labels(width, height, g.stepLarge, m);
    var r := OverlayGrid(width, height, g, m).value;
    assert r == a + b + c;
    LabelsHaveNoLines(width, height, g.stepLarge, m);
    forall z
      ensures Vertical(z, height, fine, FineStroke) in r <==> g.stepSmall > 0 && 0 <= z < width && z % g.stepSmall == 0
      ensures Horizontal(z, width, fine, FineStroke) in r <==> g.stepSmall > 0 && 0 <= z < height && z % g.stepSmall == 0
      ensures Vertical(z, height, coarse, CoarseStroke) in r <==> g.stepLarge > 0 && 0 <= z < width && z % g.stepLarge == 0
      ensures Horizontal(z, width, coarse, CoarseStroke) in r <==> g.stepLarge > 0 && 0 <= z < height && z % g.stepLarge == 0
    {
      LayerMembers(width, height, g.stepSmall, fine, FineStroke, fine, FineStroke, z);
      LayerMembers(width, height, g.stepSmall, fine, FineStroke, coarse, CoarseStroke, z);
      LayerMembers(width, height, g.stepLarge, coarse, CoarseStroke, fine, FineStroke, z);
      LayerMembers(width, height, g.stepLarge, coarse, CoarseStroke, coarse, CoarseStroke, z);
      OnlyMembers(LineKind, c, Vertical(z, height, fine, FineStroke));
      OnlyMembers(LineKind, c, Horizontal(z, width, fine, FineStroke));
      OnlyMembers(LineKind, c, Vertical(z, height, coarse, CoarseStroke));
      OnlyMembers(LineKind, c, Horizontal(z, width, coarse, CoarseStroke));
    }
    LayerCount(width, height, g.stepSmall, fine, FineStroke);
    LayerCount(width, height, g.stepLarge, coarse, CoarseStroke);
    OnlyAppend(LineKind, a + b, c);
    OnlyAppend(LineKind, a, b);
  }

  /** The texts a row of `count` labels should hold: the `i`-th sits on
      the `i`-th coarse line and reads that line's value. */
  function RowTexts(axis: Axis, count: nat, step: int, cells: int, panelMm: int): seq<Primitive> {
    seq(count, i requires 0 <= i < count => LabelText(axis, i * step, LabelMm(i, cells, panelMm)))
  }

  /** The texts of one label row are the expected row texts. */
  lemma AxisTexts(axis: Axis, dim: nat, step: int, cells: int, panelMm: int, m: TextMetrics)
    requires step != 0
    ensures var xs := Range(dim, step).value;
      Only(TextKind, AxisLabels(axis, xs, LabelValues(|xs|, cells, panelMm), m))
      == RowTexts(axis, LineCount(dim, step), step, cells, panelMm)
  {
    var xs := Range(dim, step).value;
    var vs := LabelValues(|xs|, cells, panelMm);
    AxisLabelsTexts(axis, xs, vs, m);
    var t := Only(TextKind, AxisLabels(axis, xs, vs, m));
    var want := RowTexts(axis, LineCount(dim, step), step, cells, panelMm);
    forall i | 0 <= i < |t|
      ensures t[i] == want[i]
    {
      assert t[i] == LabelText(axis, xs[i], vs[i]);
    }
  }

  /** `p` holds one dark patch per text of `t`, in the same order, each the
      measured box of its text. */
  ghost predicate Backs(p: seq<Primitive>, t: seq<Primitive>) {
    |p| == |t| && forall i :: 0 <= i < |t| ==>
      t[i].Text? && p[i] == Rect(AroundText(t[i].at, t[i].caption, GridFont, 0), LabelBackground)
  }

  /** Patches backing two runs of texts back the two runs together. */
  lemma BacksAppend(p: seq<Primitive>, t: seq<Primitive>, p': seq<Primitive>, t': seq<Primitive>)
    requires Backs(p, t) && Backs(p', t')
    ensures Backs(p + p', t + t')
  {
    forall i | |t| <= i < |t| + |t'|
      ensures (t + t')[i] == t'[i - |t|] && (p + p')[i] == p'[i - |t|]
    {
    }
  }

  /** The patches of one label row, when text can be measured: the `i`-th
      is the measured box of the `i`-th label. */
  lemma AxisPatches(axis: Axis, dim: nat, step: int, cells: int, panelMm: int, m: TextMetrics)
    requires step != 0
    ensures var xs := Range(dim, step).value;
      var r := AxisLabels(axis, xs, LabelValues(|xs|, cells, panelMm), m);
      var t, p := Only(TextKind, r), Only(RectKind, r);
      && (m.Unmeasured? ==> p == [])
      && (m.Measured? ==> Backs(p, t))
  {
    var xs := Range(dim, step).value;
    var vs := LabelValues(|xs|, cells, panelMm);
    AxisLabelsTexts(axis, xs, vs, m);
    if m.Measured? {
      AxisLabelsPatched(axis, xs, vs, m);
    } else {
      AxisLabelsUnpatched(axis, xs, vs, m);
    }
  }

  /** The grid's texts and patches are those of its labels. */
  lemma GridLabelParts(width: nat, height: nat, g: GridSpec, m: TextMetrics, k: Kind)
    requires g.stepSmall != 0 && g.stepLarge != 0
    requires k != LineKind
    ensures Only(k, OverlayGrid(width, height, g, m).value) == Only(k, Labels(width, height, g.stepLarge, m))
  {
    var a := Layer(width, height, g.stepSmall, FineColor(g.opacity), FineStroke);
    var b := Layer(width, height, g.stepLarge, CoarseColor(g.opacity), CoarseStroke);
    var c := Labels(width, height, g.stepLarge, m);
    assert OverlayGrid(width, height, g, m).value == a + b + c;
    OnlyNone(k, a);
    OnlyNone(k, b);
    OnlyAppend(k, a + b, c);
    OnlyAppend(k, a, b);
  }

  /** The texts of the labels: the top row, then the left row. */
  lemma LabelsTexts(width: nat, height: nat, step: int, m: TextMetrics)
    requires step != 0
    ensures Only(TextKind, Labels(width, height, step, m))
         == RowTexts(Top, LineCount(width, step), step, NumCells(width, step), PanelWidthMm)
          + RowTexts(Left, LineCount(height, step), step, NumCells(height, step), PanelHeightMm)
  {
    var xs := Range(width, step).value;
    var ys := Range(height, step).value;
    var top := AxisLabels(Top, xs, LabelValues(|xs|, NumCells(width, step), PanelWidthMm), m);
    var left := AxisLabels(Left, ys, LabelValues(|ys|, NumCells(height, step), PanelHeightMm), m);
    OnlyAppend(TextKind, top, left);
    AxisTexts(Top, width, step, NumCells(width, step), PanelWidthMm, m);
    AxisTexts(Left, height, step, NumCells(height, step), PanelHeightMm, m);
  }

  /** The grid's texts, in drawing order: one label per coarse column along
      the top edge, anchored at `(x + 5, 5)`, then one per coarse row down
      the left edge, anchored at `(5, y + 5)`; the `i`-th label of a row
      reads `LabelMm(i, ..)` for the fixed panel width or height. */
  lemma GridTexts(width: nat, height: nat, g: GridSpec, m: TextMetrics)
    requires g.stepSmall != 0 && g.stepLarge != 0
    ensures Only(TextKind, OverlayGrid(width, height, g, m).value)
         == RowTexts(Top, LineCount(width, g.stepLarge), g.stepLarge, NumCells(width, g.stepLarge), PanelWidthMm)
          + RowTexts(Left, LineCount(height, g.stepLarge), g.stepLarge, NumCells(height, g.stepLarge), PanelHeightMm)
  {
    GridLabelParts(width, height, g, m, TextKind);
    LabelsTexts(width, height, g.stepLarge, m);
  }

  /** The patches of the labels, matched with their texts. */
  lemma LabelsPatches(width: nat, height: nat, step: int, m: TextMetrics)
    requires step != 0
    ensures var r := Labels(width, height, step, m);
      var t, p := Only(TextKind, r), Only(RectKind, r);
      && (m.Unmeasured? ==> p == [])
      && (m.Measured? ==> Backs(p, t))
  {
    var xs := Range(width, step).value;
    var ys := Range(height, step).value;
    var top := AxisLabels(Top, xs, LabelValues(|xs|, NumCells(width, step), PanelWidthMm), m);
    var left := AxisLabels(Left, ys, LabelValues(|ys|, NumCells(height, step), PanelHeightMm), m);
    OnlyAppend(TextKind, top, left);
    OnlyAppend(RectKind, top, left);
    AxisPatches(Top, width, step, NumCells(width, step), PanelWidthMm, m);
    AxisPatches(Left, height, step, NumCells(height, step), PanelHeightMm, m);
    if m.Measured? {
      BacksAppend(Only(RectKind, top), Only(TextKind, top), Only(RectKind, left), Only(TextKind, left));
    }
  }

  /** Every grid label sits on a dark patch that is exactly the measured
      box of its text, when text can be measured; when it cannot, the
      failure is swallowed and no label has a patch. */
  lemma GridPatches(width: nat, height: nat, g: GridSpec, m: TextMetrics)
    requires g.stepSmall != 0 && g.stepLarge != 0
    ensures var r := OverlayGrid(width, height, g, m).value;
      var t, p := Only(TextKind, r), Only(RectKind, r);
      && (m.Unmeasured? ==> p == [])
      && (m.Measured? ==> Backs(p, t))
  {
    GridLabelParts(width, height, g, m, TextKind);
    GridLabelParts(width, height, g, m, RectKind);
    LabelsPatches(width, height, g.stepLarge, m);
  }

  /** There is one label per coarse line: one per whole cell, plus one
      more when the image does not end on a cell boundary. */
  lemma LabelCount(dim: nat, step: int)
    requires step > 0
    ensures LineCount(dim, step) == NumCells(dim, step) + (if dim % step == 0 then 0 else 1)
  {
    var q, r := dim / step, dim % step;
    if r == 0 {
      DivModUnique(dim + step - 1, step, q, step - 1);
    } else {
      DivModUnique(dim + step - 1, step, q + 1, r - 1);
    }
  }

  /** A product of non-negative reals is non-negative. */
  lemma MulNonNegative(a: real, b: real)
    requires a >= 0.0 && b >= 0.0
    ensures a * b >= 0.0
  {
  }

  /** Along a row the first label reads 0 mm and the values never
      decrease. */
  lemma LabelsNonDecreasing(i: nat, j: nat, cells: int, panelMm: int)
    requires i <= j && panelMm >= 0
    ensures LabelMm(0, cells, panelMm) == 0
    ensures LabelMm(i, cells, panelMm) <= LabelMm(j, cells, panelMm)
  {
    if cells > 0 {
      var c := panelMm as real / cells as real;
      MulNonNegative((j - i) as real, c);
      TruncMonotone(i as real * c, j as real * c);
    }
  }

  /** `i` of `cells` equal shares of `panelMm`, truncated, lie between 0 and
      `panelMm` when `i` is at most `cells`. */
  lemma ShareWithinPanel(i: nat, cells: int, panelMm: int)
    requires 0 < cells && i <= cells && panelMm >= 0
    ensures 0 <= LabelMm(i, cells, panelMm) <= panelMm
  {
    var c := panelMm as real / cells as real;
    var x := i as real * c;
    assert cells as real * c == panelMm as real;
    assert x <= panelMm as real by {
      MulNonNegative((cells - i) as real, c);
      assert (cells - i) as real * c == cells as real * c - x;
    }
    MulNonNegative(i as real, c);
    TruncMonotone(0.0, x);
    TruncMonotone(x, panelMm as real);
  }

  /** When the image holds a whole cell, no label exceeds the panel
      dimension it is calibrated to. */
  lemma LabelsWithinPanel(dim: nat, step: int, panelMm: int, i: nat)
    requires step > 0 && panelMm >= 0 && NumCells(dim, step) > 0
    requires i < LineCount(dim, step)
    ensures 0 <= LabelMm(i, NumCells(dim, step), panelMm) <= panelMm
  {
    LabelCount(dim, step);
    ShareWithinPanel(i, NumCells(dim, step), panelMm);
  }

  /** The last label of a row reads the full panel dimension exactly when
      the image does not end on a cell boundary, that is when the row has
      one label more than it has cells. */
  lemma LastLabel(dim: nat, step: int, panelMm: int)
    requires step > 0 && panelMm > 0 && NumCells(dim, step) > 0
    ensures LineCount(dim, step) >= 1
    ensures LabelMm(LineCount(dim, step) - 1, NumCells(dim, step), panelMm) == panelMm <==> dim % step != 0
  {
    var n := NumCells(dim, step);
    LabelCount(dim, step);
    var c := panelMm as real / n as real;
    assert n as real * c == panelMm as real;
    if dim % step == 0 {
      assert (n - 1) as real * c == panelMm as real - c;
      assert c > 0.0;
    }
  }

  /** The 50 mm fallback is never printed: a row without a whole cell has at
      most the one label at line 0, and it reads 0 mm. */
  lemma FallbackNeverShows(dim: nat, step: int, panelMm: int)
    requires step > 0 && NumCells(dim, step) <= 0
    ensures LineCount(dim, step) <= 1
    ensures forall i :: 0 <= i < LineCount(dim, step) ==> LabelMm(i, NumCells(dim, step), panelMm) == 0
  {
    LabelCount(dim, step);
  }

  /** The first text of the grid is the top row's "0mm" at (5, 5),
      whenever the image has any width. */
  lemma FirstLabelIsZero(width: nat, height: nat, g: GridSpec, m: TextMetrics)
    requires g.stepSmall != 0 && g.stepLarge > 0 && width > 0
    ensures var t := Only(TextKind, OverlayGrid(width, height, g, m).value);
      |t| >= 1 && t[0] == Text(Point(5, 5), MmLabel(0), White, GridFont)
  {
    var step := g.stepLarge;
    assert LabelMm(0, NumCells(width, step), PanelWidthMm) == 0 by {
      LabelsNonDecreasing(0, 0, NumCells(width, step), PanelWidthMm);
    }
    GridTexts(width, height, g, m);
    var t := Only(TextKind, OverlayGrid(width, height, g, m).value);
    assert t[0] == LabelText(Top, 0 * step, LabelMm(0, NumCells(width, step), PanelWidthMm));
  }

  /** An image narrower than one coarse cell gets exactly one top label,
      "0mm" at (5, 5). */
  lemma NarrowImageOneLabel(width: nat, height: nat, g: GridSpec, m: TextMetrics)
    requires g.stepSmall != 0 && 0 < width < g.stepLarge
    ensures LineCount(width, g.stepLarge) == 1
    ensures var t := Only(TextKind, OverlayGrid(width, height, g, m).value);
      |t| >= 1 && t[0] == Text(Point(5, 5), MmLabel(0), White, GridFont)
  {
    LabelCount(width, g.stepLarge);
    DivModUnique(width, g.stepLarge, 0, width);
    FirstLabelIsZero(width, height, g, m);
  }

  /** The layer a grid primitive is drawn in: fine lines, then coarse
      lines, then label patches and texts. */
  function GridLayer(p: Primitive): int {
    if p.Line? && p.width == FineStroke then 0 else if p.Line? then 1 else 2
  }

  /** The patch a grid label's text is drawn on. */
  function GridBacking(p: Primitive): Option<Primitive> {
    if p.Text? then Some(Rect(AroundText(p.at, p.caption, p.font, 0), LabelBackground)) else None
  }

  /** Every primitive of one grid is a line of that grid's stroke. */
  lemma LayerStrokes(width: nat, height: nat, step: int, color: Rgba, stroke: int)
    requires step != 0
    ensures var l := Layer(width, height, step, color, stroke);
      forall i :: 0 <= i < |l| ==> l[i].Line? && l[i].width == stroke
  {
    var v := Verticals(Range(width, step).value, height, color, stroke);
    var h := Horizontals(Range(height, step).value, width, color, stroke);
    var l: seq<Primitive> := v + h;
    forall i | 0 <= i < |l|
      ensures l[i].Line? && l[i].width == stroke
    {
      if i < |v| {
        assert l[i] == v[i];
      } else {
        assert l[i] == h[i - |v|];
      }
    }
  }

  /** The labels draw nothing on the line layers. */
  lemma LabelsOnTop(width: nat, height: nat, step: int, m: TextMetrics)
    requires step != 0
    ensures OnLayer(Labels(width, height, step, m), GridLayer, 2)
  {
    var xs := Range(width, step).value;
    var ys := Range(height, step).value;
    var top := AxisLabels(Top, xs, LabelValues(|xs|, NumCells(width, step), PanelWidthMm), m);
    var left := AxisLabels(Left, ys, LabelValues(|ys|, NumCells(height, step), PanelHeightMm), m);
    AxisLabelsHaveNoLines(Top, xs, LabelValues(|xs|, NumCells(width, step), PanelWidthMm), m);
    AxisLabelsHaveNoLines(Left, ys, LabelValues(|ys|, NumCells(height, step), PanelHeightMm), m);
    var l: seq<Primitive> := top + left;
    forall i | 0 <= i < |l|
      ensures GridLayer(l[i]) == 2
    {
      if i < |top| {
        assert l[i] == top[i];
      } else {
        assert l[i] == left[i - |top|];
      }
    }
  }

  /** The grid is drawn in layers: every fine line before every coarse
      line, and every line before every label patch and text, so the
      coarse grid lies over the fine one and the labels over both. */
  lemma GridLayering(width: nat, height: nat, g: GridSpec, m: TextMetrics)
    requires g.stepSmall != 0 && g.stepLarge != 0
    ensures Layered(OverlayGrid(width, height, g, m).value, GridLayer)
  {
    var fine := Layer(width, height, g.stepSmall, FineColor(g.opacity), FineStroke);
    var coarse := Layer(width, height, g.stepLarge, CoarseColor(g.opacity), CoarseStroke);
    var labels := Labels(width, height, g.stepLarge, m);
    LayerStrokes(width, height, g.stepSmall, FineColor(g.opacity), FineStroke);
    LayerStrokes(width, height, g.stepLarge, CoarseColor(g.opacity), CoarseStroke);
    assert OnLayer(fine, GridLayer, 0);
    assert OnLayer(coarse, GridLayer, 1);
    LabelsOnTop(width, height, g.stepLarge, m);
    LayeredRuns(fine, coarse, labels, GridLayer, 0, 1, 2);
  }

  /** Each label of a row, when text can be measured, is drawn directly on
      its own patch. */
  lemma {:induction false} AxisLabelsBacked(axis: Axis, positions: seq<int>, mms: seq<int>, m: TextMetrics)
    requires |positions| == |mms|
    ensures m.Measured? ==> Backed(AxisLabels(axis, positions, mms, m), GridBacking)
    decreases |positions|
  {
    if positions != [] && m.Measured? {
      var first := LabelPrims(axis, positions[0], mms[0], m);
      assert first == [LabelPatch(axis, positions[0], mms[0]), LabelText(axis, positions[0], mms[0])];
      assert Backed(first, GridBacking);
      AxisLabelsBacked(axis, positions[1..], mms[1..], m);
      BackedAppend(first, AxisLabels(axis, positions[1..], mms[1..], m), GridBacking);
    }
  }

  /** When text can be measured, every grid label is drawn directly after
      its own dark patch, so the patch lies under the text and not over
      it. */
  lemma GridLabelsOnPatches(width: nat, height: nat, g: GridSpec, m: TextMetrics)
    requires g.stepSmall != 0 && g.stepLarge != 0
    ensures m.Measured? ==> Backed(OverlayGrid(width, height, g, m).value, GridBacking)
  {
    if m.Measured? {
      var step := g.stepLarge;
      var fine := Layer(width, height, g.stepSmall, FineColor(g.opacity), FineStroke);
      var coarse := Layer(width, height, step, CoarseColor(g.opacity), CoarseStroke);
      LayerStrokes(width, height, g.stepSmall, FineColor(g.opacity), FineStroke);
      LayerStrokes(width, height, step, CoarseColor(g.opacity), CoarseStroke);
      BackedNone(fine + coarse, GridBacking);
      var xs := Range(width, step).value;
      var ys := Range(height, step).value;
      var top := AxisLabels(Top, xs, LabelValues(|xs|, NumCells(width, step), PanelWidthMm), m);
      var left := AxisLabels(Left, ys, LabelValues(|ys|, NumCells(height, step), PanelHeightMm), m);
      AxisLabelsBacked(Top, xs, LabelValues(|xs|, NumCells(width, step), PanelWidthMm), m);
      AxisLabelsBacked(Left, ys, LabelValues(|ys|, NumCells(height, step), PanelHeightMm), m);
      BackedAppend(top, left, GridBacking);
      BackedAppend(fine + coarse, top + left, GridBacking);
      assert OverlayGrid(width, height, g, m).value == (fine + coarse) + (top + left);
    }
  }

  /** With the default settings (24 px and 118 px steps, opacity 160) the
      grid never fails; it draws grey fine lines at alpha 80 at exactly the
      columns and rows inside the image that are multiples of 24, and grey
      coarse lines at alpha 160 at exactly those that are multiples of 118,
      starting at 0. */
  lemma DefaultGrid(width: nat, height: nat, m: TextMetrics)
    ensures OverlayGrid(width, height, DefaultSpec, m).Success?
    ensures var r := OverlayGrid(width, height, DefaultSpec, m).value;
      && (forall x :: Vertical(x, height, Rgba(120, 120, 120, 80), 1) in r <==> 0 <= x < width && x % 24 == 0)
      && (forall y :: Horizontal(y, width, Rgba(120, 120, 120, 80), 1) in r <==> 0 <= y < height && y % 24 == 0)
      && (forall x :: Vertical(x, height, Rgba(80, 80, 80, 160), 3) in r <==> 0 <= x < width && x % 118 == 0)
      && (forall y :: Horizontal(y, width, Rgba(80, 80, 80, 160), 3) in r <==> 0 <= y < height && y % 118 == 0)
  {
    GridLines(width, height, DefaultSpec, m);
    assert FineColor(160) == Rgba(120, 120, 120, 80);
  }
}
