/** What the reading of a defect record promises: which words pick which
    severity class, how the circle size behaves, and which inputs the
    marker geometry depends on. */
module DefectLaws {
  import opened Wrappers
  import opened Python
  import opened Canvas
  import opened Defects

  /** `s` spells the lower-case word `word` with any mix of upper- and
      lower-case ASCII letters. */
  predicate SpelledAs(s: string, word: string) {
    |s| == |word| && forall i :: 0 <= i < |s| ==> s[i] == word[i] || s[i] as int == word[i] as int - 32
  }

  /** A character lower-cases to the small letter `w` exactly when it is
      `w` or its capital. */
  lemma LowerCharTo(c: char, w: char)
    requires 'a' <= w <= 'z'
    ensures LowerChar(c) == w <==> c == w || c as int == w as int - 32
  {
  }

  /** A string lower-cases to a lower-case word exactly when it spells that
      word in some mix of letter cases. */
  lemma LowerIsWord(s: string, word: string)
    requires forall i :: 0 <= i < |word| ==> 'a' <= word[i] <= 'z'
    ensures Lower(s) == word <==> SpelledAs(s, word)
  {
    if |s| == |word| {
      forall i | 0 <= i < |s|
        ensures Lower(s)[i] == word[i] <==> s[i] == word[i] || s[i] as int == word[i] as int - 32
      {
        LowerCharTo(s[i], word[i]);
      }
      if SpelledAs(s, word) {
        assert Lower(s) == word;
      }
    }
  }

  /** A severity is the high class exactly when it spells "high" in any
      letter case. */
  lemma ClassifyHigh(s: string)
    ensures Classify(Some(s)) == High <==> SpelledAs(s, "high")
  {
    LowerIsWord(s, "high");
  }

  /** A severity is the medium class exactly when it spells "medium" in any
      letter case. */
  lemma ClassifyMedium(s: string)
    ensures Classify(Some(s)) == Medium <==> SpelledAs(s, "medium")
  {
    LowerIsWord(s, "high");
    LowerIsWord(s, "medium");
  }

  /** Every other severity word, "low", "critical", the empty word alike,
      falls into the low class; only a missing severity defaults to medium. */
  lemma ClassifyLow(s: string)
    ensures Classify(Some(s)) == Low <==> !SpelledAs(s, "high") && !SpelledAs(s, "medium")
    ensures Classify(None) == Medium
  {
    ClassifyHigh(s);
    ClassifyMedium(s);
    assert Lower("medium") == "medium";
  }

  /** Lower-casing twice is lower-casing once. */
  lemma LowerIdempotent(s: string)
    ensures Lower(Lower(s)) == Lower(s)
  {
    assert forall i :: 0 <= i < |s| ==> LowerChar(LowerChar(s[i])) == LowerChar(s[i]);
  }

  /** The class ignores letter case. */
  lemma ClassifyIgnoresCase(s: string)
    ensures Classify(Some(Lower(s))) == Classify(Some(s))
  {
    LowerIdempotent(s);
  }

  /** A few words and their classes. */
  lemma ClassifyExamples()
    ensures Classify(Some("HIGH")) == High
    ensures Classify(Some("Medium")) == Medium
    ensures Classify(Some("low")) == Low
    ensures Classify(Some("critical")) == Low
  {
    ClassifyHigh("HIGH");
    ClassifyMedium("Medium");
    ClassifyLow("low");
    ClassifyLow("critical");
  }

  /** The three classes are told apart by colour alone. */
  lemma ColorsDistinct(a: Severity, b: Severity)
    ensures ColorOf(a) == ColorOf(b) <==> a == b
  {
  }

  /** A larger defect never gets a smaller circle, at any non-negative
      scale. */
  lemma RadiusMonotone(d1: real, d2: real, scaleX: real)
    requires d1 <= d2 && scaleX >= 0.0
    ensures RadiusPx(d1, scaleX) <= RadiusPx(d2, scaleX)
  {
    assert d1 / 2.0 * scaleX <= d2 / 2.0 * scaleX by {
      assert d2 / 2.0 * scaleX - d1 / 2.0 * scaleX == (d2 - d1) / 2.0 * scaleX;
    }
    TruncMonotone(d1 / 2.0 * scaleX, d2 / 2.0 * scaleX);
  }

  /** Within the drawable range the radius is half the diameter in pixels,
      truncated; outside it, the nearer bound. */
  lemma RadiusClamps(diameterMm: real, scaleX: real)
    ensures var raw := Trunc(diameterMm / 2.0 * scaleX);
      && (raw < MinRadiusPx ==> RadiusPx(diameterMm, scaleX) == MinRadiusPx)
      && (MinRadiusPx <= raw <= MaxRadiusPx ==> RadiusPx(diameterMm, scaleX) == raw)
      && (raw > MaxRadiusPx ==> RadiusPx(diameterMm, scaleX) == MaxRadiusPx)
  {
    var raw := Trunc(diameterMm / 2.0 * scaleX);
    var r := RadiusPx(diameterMm, scaleX);
    if MinRadiusPx <= raw <= MaxRadiusPx {
      assert Dist(r, raw) <= Dist(raw, raw);
    } else if raw < MinRadiusPx {
      assert Dist(r, raw) <= Dist(MinRadiusPx, raw);
    } else {
      assert Dist(r, raw) <= Dist(MaxRadiusPx, raw);
    }
  }

  /** The circle's size follows the horizontal scale only: two images that
      differ only in height draw the same radius. */
  lemma RadiusIgnoresVerticalScale(d: Defect, index: nat, scaleX: real, ya: real, yb: real)
    ensures Resolve(d, index, Scale(scaleX, ya)).radius == Resolve(d, index, Scale(scaleX, yb)).radius
  {
  }

  /** A legacy record is placed at its own pixels whatever the scale. */
  lemma LegacyIgnoresScale(d: Defect, index: nat, s1: Scale, s2: Scale)
    requires d.xMm.None?
    ensures Resolve(d, index, s1).center == Resolve(d, index, s2).center
  {
  }

  /** A record without an id is numbered by its 1-based position; a record
      with one keeps it. */
  lemma IdDefaultsToPosition(d: Defect, index: nat, s: Scale)
    ensures d.id.None? ==> Resolve(d, index, s).id == index
    ensures d.id.Some? ==> Resolve(d, index, s).id == d.id.value
  {
  }

  /** The diameter printed is `diameter_mm` when given, even beside a legacy
      `size`; `size` otherwise; 10 mm when neither is there. */
  lemma DiameterPrecedence(d: Defect, index: nat, s: Scale)
    ensures var mk := Resolve(d, index, s);
      && (d.diameterMm.Some? ==> mk.diameterMm == d.diameterMm.value)
      && (d.diameterMm.None? && d.size.Some? ==> mk.diameterMm == d.size.value)
      && (d.diameterMm.None? && d.size.None? ==> mk.diameterMm == 10.0)
  {
  }

  /** A millimetre position lands at the scaled pixel with its fraction
      dropped; at the image's own scale, in exact arithmetic, the panel's far
      corner lands on the image's far corner. */
  lemma CornerLandsOnCorner(width: nat, height: nat, panelW: real, panelH: real)
    requires panelW != 0.0 && panelH != 0.0
    ensures var s := ScaleFor(width, height, panelW, panelH).value;
      CenterOf(Millimetres(panelW, panelH), s) == Point(width, height)
  {
    var s := ScaleFor(width, height, panelW, panelH).value;
    assert panelW * s.x == width as real;
    assert panelH * s.y == height as real;
    var c := CenterOf(Millimetres(panelW, panelH), s);
    DropsFractionUnique(width as real, c.x, width);
    DropsFractionUnique(height as real, c.y, height);
  }

  /** Where a record's marker is centred at scale `s`: with `x_mm`, at
      `x_mm` and `y_mm` times the scale (a missing `y_mm` read as 0);
      without it, at the legacy `x` and `y` (each 0 when missing), even when
      `y_mm` is given; each coordinate with its fraction dropped toward
      zero. */
  lemma CenterPlacement(d: Defect, index: nat, s: Scale)
    ensures var c := Resolve(d, index, s).center;
      && (d.xMm.Some? ==> DropsFraction(d.xMm.value * s.x, c.x) && DropsFraction(d.yMm.GetOr(0.0) * s.y, c.y))
      && (d.xMm.None? ==> DropsFraction(d.x.GetOr(0.0), c.x) && DropsFraction(d.y.GetOr(0.0), c.y))
  {
  }

  /** The colour of a record's marker from its severity text: red for any
      spelling of "high", orange for any spelling of "medium" or no severity
      at all, yellow for everything else. */
  lemma ColorTable(severity: Option<string>)
    ensures severity.None? ==> ColorOf(Classify(severity)) == Rgba(255, 140, 0, 255)
    ensures severity.Some? && SpelledAs(severity.value, "high") ==> ColorOf(Classify(severity)) == Rgba(255, 0, 0, 255)
    ensures severity.Some? && SpelledAs(severity.value, "medium") ==> ColorOf(Classify(severity)) == Rgba(255, 140, 0, 255)
    ensures severity.Some? && !SpelledAs(severity.value, "high") && !SpelledAs(severity.value, "medium")
            ==> ColorOf(Classify(severity)) == Rgba(255, 200, 0, 255)
  {
    if severity.Some? {
      ClassifyHigh(severity.value);
      ClassifyMedium(severity.value);
      ClassifyLow(severity.value);
    } else {
      ClassifyLow("");
    }
  }
}
