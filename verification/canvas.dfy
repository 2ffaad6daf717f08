/** The drawing primitives the two renderers emit onto their transparent
    overlay, in drawing order, in place of the pixels the imaging library
    would rasterise. */
module Canvas {
  import opened Wrappers

  /** A pixel coordinate; it may lie off the image. */
  datatype Point = Point(x: int, y: int)

  /** A colour with alpha, channel values as the renderer passes them. */
  datatype Rgba = Rgba(r: int, g: int, b: int, a: int)

  /** A rectangle given by two corners `[x0, y0, x1, y1]`. */
  datatype Box = Box(x0: int, y0: int, x1: int, y1: int)

  /** How an ellipse is painted: an outline of a given stroke width, or a
      solid fill. */
  datatype Paint = Outline(color: Rgba, stroke: int) | Fill(color: Rgba)

  /** The fonts the renderers ask for: the grid's label font, and the marker
      renderer's large and small fonts. Which face is actually loaded, a
      scalable one or the library's fixed fallback, is hidden behind
      `TextMetrics`. */
  datatype FontRole = GridFont | LargeFont | SmallFont

  /** The text of a label, kept abstract: the number a label prints and not
      its formatted characters. */
  datatype Label =
    | MmLabel(mm: int)                       // "<mm>mm" on a grid axis
    | IdLabel(id: int)                       // "#<id>" beside a marker
    | SizeLabel(diameterMm: real)            // "<diameter> mm" below a marker
    | CoordLabel(xMm: real, yMm: real)       // "[<x>, <y>]" right of a marker
    | LegendTitle | LegendHigh | LegendMedium | LegendLow
    | LegendTotal(count: nat)                // the legend's defect count

  /** The area of a filled rectangle: fixed corners, or the bounding box
      the imaging library measures for a text, widened by `pad` pixels on
      every side. The measured box itself is not modelled. */
  datatype Area =
    | Fixed(box: Box)
    | AroundText(at: Point, caption: Label, font: FontRole, pad: int)

  /** One drawing call on the overlay. */
  datatype Primitive =
    | Line(from: Point, to: Point, color: Rgba, width: int)
    | Ellipse(box: Box, paint: Paint)
    | Rect(area: Area, fill: Rgba)
    | Text(at: Point, caption: Label, color: Rgba, font: FontRole)
  {
    function Kind(): Kind {
      match this
      case Line(_, _, _, _) => LineKind
      case Ellipse(_, _) => EllipseKind
      case Rect(_, _) => RectKind
      case Text(_, _, _, _) => TextKind
    }
  }

  datatype Kind = LineKind | EllipseKind | RectKind | TextKind

  /** Whether the text-measuring call works with the fonts that loaded.
      When it raises, the renderers fall back to a fixed rectangle or to
      none. */
  datatype TextMetrics = Measured | Unmeasured

  /** The values `pick` finds in `ps`, in drawing order. */
  function Pick<T>(ps: seq<Primitive>, pick: Primitive -> Option<T>): seq<T> {
    if ps == [] then []
    else (if pick(ps[0]).Some? then [pick(ps[0]).value] else []) + Pick(ps[1..], pick)
  }

  /** Picking commutes with concatenation. */
  lemma {:induction false} PickAppend<T>(a: seq<Primitive>, b: seq<Primitive>, pick: Primitive -> Option<T>)
    ensures Pick(a + b, pick) == Pick(a, pick) + Pick(b, pick)
  {
    if a == [] {
      assert a + b == b;
    } else {
      var head, tail := a[0], a[1..];
      assert a == [head] + tail;
      assert a + b == [head] + (tail + b);
      PickCons(head, tail, pick);
      PickCons(head, tail + b, pick);
      PickAppend(tail, b, pick);
    }
  }

  /** Nothing is picked from primitives `pick` ignores. */
  lemma {:induction false} PickNone<T>(ps: seq<Primitive>, pick: Primitive -> Option<T>)
    requires forall i :: 0 <= i < |ps| ==> pick(ps[i]).None?
    ensures Pick(ps, pick) == []
  {
    if ps != [] {
      PickNone(ps[1..], pick);
    }
  }

  /** Picking from a sequence that starts with one primitive. */
  lemma PickCons<T>(p: Primitive, rest: seq<Primitive>, pick: Primitive -> Option<T>)
    ensures Pick([p] + rest, pick) == (if pick(p).Some? then [pick(p).value] else []) + Pick(rest, pick)
  {
    assert ([p] + rest)[0] == p && ([p] + rest)[1..] == rest;
  }

  /** The selector of the primitives of kind `k`. */
  function OfKind(k: Kind): Primitive -> Option<Primitive> {
    (p: Primitive) => if p.Kind() == k then Some(p) else None
  }

  /** The primitives of one kind, in drawing order. */
  function Only(k: Kind, ps: seq<Primitive>): seq<Primitive> {
    Pick(ps, OfKind(k))
  }

  /** Selection keeps exactly the primitives of the chosen kind. */
  lemma {:induction false} OnlyMembers(k: Kind, ps: seq<Primitive>, p: Primitive)
    ensures p in Only(k, ps) <==> p in ps && p.Kind() == k
  {
    if ps != [] {
      OnlyMembers(k, ps[1..], p);
      assert ps == [ps[0]] + ps[1..];
    }
  }

  /** Selecting a kind commutes with concatenation. */
  lemma OnlyAppend(k: Kind, a: seq<Primitive>, b: seq<Primitive>)
    ensures Only(k, a + b) == Only(k, a) + Only(k, b)
  {
    PickAppend(a, b, OfKind(k));
  }

  /** Selecting a kind from a sequence that starts with `p`. */
  lemma OnlyCons(k: Kind, p: Primitive, rest: seq<Primitive>)
    ensures Only(k, [p] + rest) == if p.Kind() == k then [p] + Only(k, rest) else Only(k, rest)
  {
    PickCons(p, rest, OfKind(k));
  }

  /** Selecting a kind from a single primitive keeps it or drops it. */
  lemma OnlySingle(k: Kind, p: Primitive)
    ensures Only(k, [p]) == if p.Kind() == k then [p] else []
  {
    assert [p] == [p] + [];
    PickCons(p, [], OfKind(k));
  }

  /** Selecting a kind none of the primitives has leaves nothing. */
  lemma {:induction false} OnlyNone(k: Kind, ps: seq<Primitive>)
    requires forall i :: 0 <= i < |ps| ==> ps[i].Kind() != k
    ensures Only(k, ps) == []
  {
    if ps != [] {
      OnlyNone(k, ps[1..]);
    }
  }

  /** Selecting the kind all the primitives have keeps them all. */
  lemma {:induction false} OnlyAll(k: Kind, ps: seq<Primitive>)
    requires forall i :: 0 <= i < |ps| ==> ps[i].Kind() == k
    ensures Only(k, ps) == ps
  {
    if ps != [] {
      OnlyAll(k, ps[1..]);
      assert ps == [ps[0]] + ps[1..];
    }
  }

  const White := Rgba(255, 255, 255, 255)

  /** Every primitive for which `back` names a backing is drawn directly
      after that backing, so it ends up on top of it. */
  predicate Backed(ps: seq<Primitive>, back: Primitive -> Option<Primitive>) {
    forall j :: 0 <= j < |ps| && back(ps[j]).Some? ==> 0 < j && ps[j - 1] == back(ps[j]).value
  }

  /** Primitives that need no backing are trivially backed. */
  lemma BackedNone(ps: seq<Primitive>, back: Primitive -> Option<Primitive>)
    requires forall i :: 0 <= i < |ps| ==> back(ps[i]).None?
    ensures Backed(ps, back)
  {
  }

  /** Backing survives concatenation: each part keeps its own backings. */
  lemma BackedAppend(a: seq<Primitive>, b: seq<Primitive>, back: Primitive -> Option<Primitive>)
    requires Backed(a, back) && Backed(b, back)
    ensures Backed(a + b, back)
  {
    var ps := a + b;
    forall j | 0 <= j < |ps| && back(ps[j]).Some?
      ensures 0 < j && ps[j - 1] == back(ps[j]).value
    {
      if j < |a| {
        assert ps[j] == a[j];
        assert ps[j - 1] == a[j - 1];
      } else {
        assert ps[j] == b[j - |a|];
        assert 0 < j - |a|;
        assert ps[j - 1] == b[j - |a| - 1];
      }
    }
  }

  /** The primitives are drawn in non-decreasing `layer`: nothing of a
      higher layer is drawn before something of a lower one. */
  predicate Layered(ps: seq<Primitive>, layer: Primitive -> int) {
    forall i, j :: 0 <= i < j < |ps| ==> layer(ps[i]) <= layer(ps[j])
  }

  /** All the primitives are on layer `k`. */
  predicate OnLayer(ps: seq<Primitive>, layer: Primitive -> int, k: int) {
    forall i :: 0 <= i < |ps| ==> layer(ps[i]) == k
  }

  /** The layer of an entry of three concatenated single-layer runs. */
  lemma LayerAt(a: seq<Primitive>, b: seq<Primitive>, c: seq<Primitive>, layer: Primitive -> int,
                ka: int, kb: int, kc: int, x: int)
    requires OnLayer(a, layer, ka) && OnLayer(b, layer, kb) && OnLayer(c, layer, kc)
    requires 0 <= x < |a + b + c|
    ensures layer((a + b + c)[x]) == if x < |a| then ka else if x < |a| + |b| then kb else kc
  {
    if x < |a| {
      assert (a + b + c)[x] == a[x];
    } else if x < |a| + |b| {
      assert (a + b + c)[x] == b[x - |a|];
    } else {
      assert (a + b + c)[x] == c[x - |a| - |b|];
    }
  }

  /** Three single-layer runs drawn in order of their layers are layered. */
  lemma LayeredRuns(a: seq<Primitive>, b: seq<Primitive>, c: seq<Primitive>, layer: Primitive -> int,
                    ka: int, kb: int, kc: int)
    requires OnLayer(a, layer, ka) && OnLayer(b, layer, kb) && OnLayer(c, layer, kc)
    requires ka <= kb <= kc
    ensures Layered(a + b + c, layer)
  {
    var ps := a + b + c;
    forall i, j | 0 <= i < j < |ps|
      ensures layer(ps[i]) <= layer(ps[j])
    {
      LayerAt(a, b, c, layer, ka, kb, kc, i);
      LayerAt(a, b, c, layer, ka, kb, kc, j);
    }
  }
}
