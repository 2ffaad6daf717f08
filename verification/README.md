# thermogram-api overlays in Dafny

The thermogram service analyses thermograms of bonded panels and draws on
them. This project models the drawing logic of its two renderers in `app.py`:

- `overlay_grid` draws a two-level line grid with millimetre labels.
- `mark_defects` draws one marker per reported defect and a legend.

Each renderer is a pure function. It returns the sequence of drawing
primitives the Pillow calls would produce, in drawing order:

- lines;
- ellipses, either outlined with a stroke width or filled;
- rectangles;
- texts with an abstract caption, a colour and a font role.

A raised Python exception becomes a `Result` failure.

The files:

- `python.dfy` writes out the Python built-ins the arithmetic depends on.
  `int()` of a float truncates toward zero, `//` is floor division, and
  `range(0, stop, step)` raises `ValueError` for a zero step and is empty
  for a negative step.
- `canvas.dfy` holds the primitives and `Pick`/`Only`, which select
  primitives of one kind. It also holds two drawing-order predicates:
  `Layered` (nothing of a higher layer is drawn before something of a lower
  one) and `Backed` (each text is drawn directly after its own backing).
- `grid.dfy` models `overlay_grid`, with its laws in `grid_laws.dfy`.
- `defects.dfy` models how one defect record is read: its position form,
  scale, centre, radius, severity class and colour. Its laws are in
  `defect_laws.dfy`.
- `markers.dfy` models what `mark_defects` draws, with its laws in
  `marker_laws.dfy`.

Pillow's `textbbox` either measures a text or raises. That is a single
global parameter, `TextMetrics`:

- `Measured`: a label's backing is the symbolic box `AroundText(at, caption,
  font, pad)`.
- `Unmeasured`: the renderer's `except` branches run. The number and size
  labels get fixed boxes. The grid labels and the coordinate label get no
  backing.

A few behaviours of the code are easy to misread. The model follows the
code in each:

- Positions and radii are truncated by `int()`, not rounded.
- A severity word other than "high" or "medium", in any case, is drawn
  yellow like "low". Only a missing severity counts as medium.
- Grid labels are calibrated to a fixed 290 x 218 mm panel, whatever panel
  the image shows.
- `mark_defects` fails, with `ZeroDivisionError`, only for a zero panel
  dimension. A negative dimension is accepted. The failure happens even
  for an empty defect list.
- A record whose `y_mm` is present but `x_mm` is absent is placed by its
  legacy `x`/`y` pixels.

`GridLaws.LastLabel` shows one consequence of the fixed calibration, in
exact arithmetic. When an image does not end on a coarse-cell boundary, the
last coarse line lies inside the image, yet its label reads the full panel
dimension. In IEEE doubles the same label can read one millimetre less. For
a 1300 px tall image, `1300 // 118` is 11, and `int(11 * (218 / 11))` is
217, not 218.

## Model

| member | source | states |
|---|---|---|
| Python.Trunc | app.py:135-140 | `int()` of a float is the integer within one of it on the side of zero |
| Python.TruncIsOdd | app.py:135-136 | a negative coordinate truncates toward zero, not toward minus infinity: `int(-r) == -int(r)` |
| Python.TruncMonotone | app.py:144 | truncation never reverses the order of two floats |
| Python.FloorDiv | app.py:31 | `a // b` is the quotient whose multiple of `b` lies on the floor side of `a`, for either sign of `b` |
| Python.Range | app.py:35-48 | `range(0, stop, step)` fails with `ValueError` iff the step is 0; it is empty for a negative step; otherwise it holds exactly the non-negative multiples of the step below `stop`, ascending, and there are `ceil(stop / step)` of them |
| Grid.OverlayGrid | app.py:35-81 | the grid overlay fails, with `ValueError`, exactly when either step is zero |
| GridLaws.GridLines | app.py:31-48 | a full-height fine line (grey 120, alpha `opacity // 2`, width 1) is drawn at column x iff the fine step is positive and x is a multiple of it inside the image; likewise for rows and for coarse lines (grey 80, full opacity, width 3); no other lines are drawn, and their number is the sum of the four range lengths |
| GridLaws.GridTexts | app.py:57-81 | the grid's texts are exactly one white label per coarse column along the top at `(x + 5, 5)`, then one per coarse row down the left at `(5, y + 5)`; the i-th label reads `int(i * (290 / cells))` or `int(i * (218 / cells))` mm, or `i * 50` when there is no whole cell |
| GridLaws.GridPatches | app.py:66-80 | a measured label gets one dark (0,0,0,180) patch under its own text box, paired one to one with the texts; when text cannot be measured no patch is drawn |
| GridLaws.GridLayering | app.py:35-81 | the grid is drawn in layers: every fine line before every coarse line, and every line before every label patch and text |
| GridLaws.GridLabelsOnPatches | app.py:66-81 | when text can be measured, every grid label text is drawn directly after its own dark patch, so the patch lies under it |
| GridLaws.DefaultGrid | app.py:11 | with the default 24 px / 118 px steps and opacity 160, the grid never fails; it draws alpha-80 fine lines at exactly the columns and rows inside the image that are multiples of 24 (0 included), and alpha-160 coarse lines at exactly those that are multiples of 118 |
| GridLaws.LabelCount | app.py:57-64 | a label row holds one label per whole cell, plus one when the image does not end on a cell boundary |
| GridLaws.LabelsNonDecreasing | app.py:60-65 | the first label of a row reads 0 mm and the values never decrease along the row |
| GridLaws.LabelsWithinPanel | app.py:57-65 | when the image holds a whole cell, no label is negative or exceeds the panel dimension it is calibrated to |
| GridLaws.LastLabel | app.py:57-65 | the last label of a row reads the full panel dimension iff the image does not end on a cell boundary |
| GridLaws.FallbackNeverShows | app.py:60-65 | an image without a whole coarse cell has at most one label per row, and it reads 0 mm, so the 50 mm fallback never appears |
| GridLaws.FirstLabelIsZero | app.py:63-71 | with a positive coarse step, any image with some width starts its texts with "0mm" at (5, 5) |
| GridLaws.NarrowImageOneLabel | app.py:57-71 | an image narrower than one coarse step has exactly one top label, "0mm" at (5, 5) |
| Defects.ScaleFor | app.py:114-115 | the scale fails, with `ZeroDivisionError`, iff a panel dimension is zero; otherwise one scale step per millimetre spans the image exactly (`scale_x * panel_w == width`) |
| Defects.CenterOf | app.py:131-140 | a millimetre position lands at its scaled value with the fraction dropped; a pixel position at its own value with the fraction dropped |
| DefectLaws.CenterPlacement | app.py:131-140 | the position form is chosen by `x_mm` alone: with it the centre is `x_mm`/`y_mm` (missing `y_mm` as 0) times the scale, without it the legacy `x`/`y` (missing as 0), even if `y_mm` is given |
| DefectLaws.CornerLandsOnCorner | app.py:114-136 | at the image's own scale, in exact arithmetic, the panel's far corner in millimetres lands exactly on the image's far corner |
| Defects.RadiusPx | app.py:143-149 | the radius is between 15 and 100 px, and is the value in that range nearest to the truncated half-diameter at the horizontal scale |
| DefectLaws.RadiusClamps | app.py:144-149 | below 15 the radius is 15, above 100 it is 100, in between it is the truncated half-diameter |
| DefectLaws.RadiusMonotone | app.py:143-149 | at a non-negative scale, a larger diameter never gets a smaller circle |
| DefectLaws.RadiusIgnoresVerticalScale | app.py:144 | the radius depends on the horizontal scale only |
| DefectLaws.DiameterPrecedence | app.py:143 | the diameter is `diameter_mm` when present, even beside `size`; then `size`; then 10 mm |
| DefectLaws.IdDefaultsToPosition | app.py:127-128 | a record without an id is numbered by its 1-based position; a record with one keeps it |
| DefectLaws.LegacyIgnoresScale | app.py:137-140 | a pixel-form record is placed at the same point whatever the image and panel sizes |
| Defects.Resolve | app.py:127-161 | a resolved marker's radius is in [15, 100] and it carries printed coordinates iff the record is in millimetre form |
| Defects.Lower | app.py:152 | lower-casing keeps the length, moves every ASCII capital 32 code points up to its small letter, keeps every other character, and leaves no capital |
| DefectLaws.LowerIsWord | app.py:152-156 | a word lower-cases to a lower-case word iff it spells that word in some mix of cases |
| DefectLaws.LowerIdempotent | app.py:152 | lower-casing twice is lower-casing once |
| DefectLaws.ClassifyHigh | app.py:152-155 | a severity is the high class iff it spells "high" in any case |
| DefectLaws.ClassifyMedium | app.py:152-158 | a severity is the medium class iff it spells "medium" in any case |
| DefectLaws.ClassifyLow | app.py:152-161 | every other given severity is the low class; a missing severity is medium |
| DefectLaws.ClassifyIgnoresCase | app.py:152 | the class of a word and of its lower-case form agree |
| DefectLaws.ClassifyExamples | app.py:152-161 | "HIGH" is high, "Medium" is medium, "low" and "critical" are low |
| DefectLaws.ColorTable | app.py:152-161 | red (255,0,0) for any spelling of "high", orange (255,140,0) for "medium" or no severity, yellow (255,200,0) otherwise |
| DefectLaws.ColorsDistinct | app.py:153-161 | two classes share a colour iff they are the same class |
| MarkerLaws.FigureGeometry | app.py:165-194 | a marker draws a ring of its radius and colour with stroke 4, then a white (255,255,255,180) halo 2 px wider with stroke 1, then a filled dot of radius 5 inside the ring, then a horizontal and a vertical crosshair arm 16 px long with stroke 2, all centred on the defect |
| MarkerLaws.LabelsAroundCircle | app.py:199-244 | the number sits 5 px left of the circle's box and 30 px above its top; the size starts at its left edge 8 px below its bottom; the coordinates sit 8 px right of it, 10 px above the centre |
| MarkerLaws.MarkerTexts | app.py:199-256 | a marker's texts are its number in the severity colour, its diameter in white and, iff the record gives `x_mm`, its raw millimetre coordinates in grey |
| MarkerLaws.MarkerBackings | app.py:203-255 | measured: each text gets its own box widened by 3 px (2 for the coordinates) with shade 220 (200 for the coordinates), in text order; unmeasured: only the number and size get fixed 43 x 28 and 73 x 23 boxes from 3 px above-left of the text |
| MarkerLaws.MarkerRing | app.py:165-171 | a marker draws exactly one main ring, its own circle |
| MarkerLaws.MarkerNumber | app.py:199-217 | a marker prints exactly one number, its own id |
| MarkerLaws.AllRings | app.py:127-171 | a run of markers draws one ring per record, in list order |
| MarkerLaws.AllNumbers | app.py:127-217 | a run of markers prints one number per record, in list order |
| MarkerLaws.RingPerDefect | app.py:127-171 | the overlay's main rings are exactly the records' circles, one per record, in list order |
| MarkerLaws.NumberPerDefect | app.py:127-217 | the numbers on the overlay are the records' ids, defaulting to their 1-based positions, in list order |
| MarkerLaws.MarkerBackedInOrder | app.py:203-256 | within one marker, each label's text is drawn directly after its own backing |
| MarkerLaws.OverlayBacked | app.py:127-281 | on the whole overlay, every number, size and coordinate text is drawn directly after its own backing. Measured: its box widened by 3 px, or 2 px for the coordinates. Unmeasured: the fixed box of the number or the size. A backing never covers its text |
| MarkerLaws.DefaultPanel | app.py:95-149 | the default 500 x 400 mm panel never makes the overlay fail, for any image size; on a 1000 px wide image, a record with no diameter is a 10 mm defect whose 10 px radius is raised to 15 |
| Markers.MarkDefects | app.py:114-281 | the overlay fails, with `ZeroDivisionError`, iff a panel dimension is zero, even for an empty list; an empty list draws nothing |
| MarkerLaws.LegendIffDefects | app.py:259-281 | a legend primitive appears iff the defect list is non-empty |
| MarkerLaws.LegendTotalShown | app.py:259-281 | the total at `(width - 130, 73)` is drawn iff the list is non-empty, and it counts exactly the records |
| MarkerLaws.LegendPlacement | app.py:260-281 | the legend panel spans `[width - 210, 10, width - 10, 110]` in shade (0,0,0,200), the title is at `(width - 200, 20)` and the total is drawn last |
| MarkerLaws.LegendSwatches | app.py:270-277 | for each class, the legend has a swatch filled with that class's marker colour, with its word 18 px right of and 2 px above the swatch |
| MarkerLaws.WorkedExample | app.py:114-217 | on a 1000 x 1000 image of a 100 x 100 mm panel, a 5 mm "high" defect at (10, 10) mm gets a red ring [75, 75, 125, 125] drawn first, "#1" at (70, 45) and the total 1 at (870, 73) |

## Left out

- Image decoding, alpha compositing, RGB conversion and JPEG encoding, and the Flask endpoints around the renderers: I/O outside the drawing logic. The endpoints' parsing of form and JSON fields and their empty-list 400 response are left out with them.
- Rasterisation and fonts: a text is a caption, a position, a colour and a font role; which font file loads, and the exact pixel box `textbbox` returns, are not modelled. A measured backing is the symbolic `AroundText` box.
- Text measurement failing for some labels but not others: `TextMetrics` is one choice for the whole image, since both renderers load their fonts once.
- Label formatting (`f"{int(..)}mm"`, `:.1f`, `:.0f`, `#`, "Всего:"): captions are abstract values carrying the number they print.
- IEEE-754 arithmetic: floats are exact reals, so a product that rounds to an integer boundary in floating point is not modelled.
- Defects.Lower: lower-cases ASCII letters only, because non-ASCII input cannot change whether a word equals "high" or "medium".
- Malformed records: `float()`/`int()` raising on non-numeric fields, non-dict records and non-string severities. A record is typed, every key optional.
- The unused `color_rgb` local of `mark_defects`: it affects no drawing.
- Colour channels are integers with no 0..255 check, as Pillow is given them.
- Hot-spot detection and a pixel-to-millimetre conversion (with its round trip) are not modelled. `app.py` has neither: defects arrive in the request, and only millimetres are converted to pixels (app.py:135-136).
- Defect ids that are not integers: `f"#{defect_id}"` prints any JSON value, so `"A-3"` prints `#A-3` and `null` prints `#None`. The model's `id` is an optional integer.
- GridLaws.LastLabel: holds in exact arithmetic only. With IEEE doubles, `int(n * (218 / n))` is 217 for n = 11, 22, 44, 45, 83, 87, 88 and 90. A 1300 px tall image (11 whole cells, 2 px over) therefore labels its last line "217mm", not "218mm". Labels inside a row are affected too: with 22 cells the 11th label is `int(11 * (218 / 22))`, printed as "108mm", where exact arithmetic gives 109.
