/**
 * Comparing two bitmap fonts (utils/compare_fonts.py, main): detect each grid,
 * take each font's average ink box, and turn the two averages into width,
 * height and geometric-mean scale factors.
 *
 * The geometric mean is sqrt(widthScale * heightScale).  Its numeric value is
 * not computed here: `GeomMean` records whether it is the guarded 0 or the root
 * of a given radicand, and `Denotes` says which reals that stands for.
 */
module CompareFonts {
  import opened GlyphGrid
  import opened BBoxStats

  /** The average ink box of one font. */
  datatype FontStats = FontStats(avgWidth: real, avgHeight: real)

  /** The geometric-mean scale: the guarded 0, or the square root of `radicand`. */
  datatype GeomMean = Zero | RootOf(radicand: real)

  datatype ScaleReport = ScaleReport(width: real, height: real, geom: GeomMean)

  /** `target / source`, or 0 when the source is 0. */
  function Ratio(target: real, source: real): (q: real)
    ensures source != 0.0 ==> q * source == target
    ensures source == 0.0 ==> q == 0.0
  {
    if source != 0.0 then target / source else 0.0
  }

  /**
   * The guarded geometric mean: on both branches, any value it stands for is
   * the non-negative square root of the product of the two scales.
   */
  function GeomMeanOf(widthScale: real, heightScale: real): (g: GeomMean)
    ensures g.RootOf? <==> widthScale != 0.0 && heightScale != 0.0
    ensures g.RootOf? ==> g.radicand == widthScale * heightScale
    ensures forall v :: Denotes(g, v) ==> v >= 0.0 && v * v == widthScale * heightScale
  {
    if widthScale != 0.0 && heightScale != 0.0 then RootOf(widthScale * heightScale) else Zero
  }

  /** `v` is the value the geometric-mean expression evaluates to. */
  ghost predicate Denotes(g: GeomMean, v: real)
  {
    match g
    case Zero => v == 0.0
    case RootOf(x) => v >= 0.0 && v * v == x
  }

  /** The scale factors of the second font relative to the first. */
  function EstimateScale(font1: FontStats, font2: FontStats): (s: ScaleReport)
    ensures font1.avgWidth != 0.0 ==> s.width * font1.avgWidth == font2.avgWidth
    ensures font1.avgWidth == 0.0 ==> s.width == 0.0
    ensures font1.avgHeight != 0.0 ==> s.height * font1.avgHeight == font2.avgHeight
    ensures font1.avgHeight == 0.0 ==> s.height == 0.0
    ensures s.geom.RootOf? <==> s.width != 0.0 && s.height != 0.0
    ensures s.geom.RootOf? ==> s.geom.radicand == s.width * s.height
  {
    var ws := Ratio(font2.avgWidth, font1.avgWidth);
    var hs := Ratio(font2.avgHeight, font1.avgHeight);
    ScaleReport(ws, hs, GeomMeanOf(ws, hs))
  }

  /** Equal, nonzero statistics give scale 1 in width, height and geometric mean. */
  lemma IdentityScale(stats: FontStats)
    requires stats.avgWidth != 0.0 && stats.avgHeight != 0.0
    ensures EstimateScale(stats, stats) == ScaleReport(1.0, 1.0, RootOf(1.0))
    ensures forall v :: Denotes(RootOf(1.0), v) ==> v == 1.0
  {
    var s := EstimateScale(stats, stats);
    assert s.width * stats.avgWidth == stats.avgWidth;
    assert (s.width - 1.0) * stats.avgWidth == 0.0;
    assert (s.height - 1.0) * stats.avgHeight == 0.0;
    forall v | Denotes(RootOf(1.0), v) ensures v == 1.0 {
      SquareMonotone(v);
    }
  }

  lemma SquareMonotone(v: real)
    requires v >= 0.0
    ensures v < 1.0 ==> v * v < 1.0
    ensures v > 1.0 ==> v * v > 1.0
  {
    if v < 1.0 {
      MulMonotone(v, 1.0, v);
    } else if v > 1.0 {
      MulMonotone(1.0, v, v);
    }
  }

  lemma MulMonotone(a: real, b: real, c: real)
    requires c >= 0.0 && a <= b
    ensures a * c <= b * c
    ensures c > 0.0 && a < b ==> a * c < b * c
  {
  }

  /** A blank first font in one dimension gives scale 0 there and a geometric mean of 0, without failing. */
  lemma DegenerateScale(font1: FontStats, font2: FontStats)
    requires font1.avgWidth == 0.0 || font1.avgHeight == 0.0
    ensures font1.avgWidth == 0.0 ==> EstimateScale(font1, font2).width == 0.0
    ensures font1.avgHeight == 0.0 ==> EstimateScale(font1, font2).height == 0.0
    ensures EstimateScale(font1, font2).geom == Zero
    ensures forall v :: Denotes(EstimateScale(font1, font2).geom, v) <==> v == 0.0
  {
  }

  /** Non-negative statistics give non-negative scales and a non-negative radicand, so the root exists. */
  lemma ScalesNonNegative(font1: FontStats, font2: FontStats)
    requires font1.avgWidth >= 0.0 && font1.avgHeight >= 0.0
    requires font2.avgWidth >= 0.0 && font2.avgHeight >= 0.0
    ensures EstimateScale(font1, font2).width >= 0.0 && EstimateScale(font1, font2).height >= 0.0
    ensures EstimateScale(font1, font2).geom.RootOf? ==> EstimateScale(font1, font2).geom.radicand >= 0.0
  {
    var s := EstimateScale(font1, font2);
    if font1.avgWidth != 0.0 {
      assert s.width * font1.avgWidth == font2.avgWidth;
    }
    if font1.avgHeight != 0.0 {
      assert s.height * font1.avgHeight == font2.avgHeight;
    }
  }

  /** Two fonts that both have ink get positive scales and a geometric mean that is a root of a positive number. */
  lemma ScalesPositive(font1: FontStats, font2: FontStats)
    requires font1.avgWidth > 0.0 && font1.avgHeight > 0.0
    requires font2.avgWidth > 0.0 && font2.avgHeight > 0.0
    ensures EstimateScale(font1, font2).width > 0.0 && EstimateScale(font1, font2).height > 0.0
    ensures EstimateScale(font1, font2).geom.RootOf? && EstimateScale(font1, font2).geom.radicand > 0.0
  {
    var s := EstimateScale(font1, font2);
    assert s.width * font1.avgWidth == font2.avgWidth;
    assert s.height * font1.avgHeight == font2.avgHeight;
    assert s.width > 0.0 && s.height > 0.0;
  }

  /** Everything the comparison reports for one font. */
  datatype FontReport = FontReport(width: int, height: int, stats: FontStats)

  datatype Comparison = Comparison(font1: FontReport, font2: FontReport, scale: ScaleReport)

  /** What the comparison must report for a font of detected grid (w, h). */
  ghost predicate ReportsFont(data: seq<Byte>, f: FontReport)
  {
    && IsBest(data, DefaultMinGlyphs, f.width, f.height)
    && f.stats == FontStats(Mean(Widths(InkBoxes(Decode(data, f.width, f.height)))),
                            Mean(Heights(InkBoxes(Decode(data, f.width, f.height)))))
  }

  /**
   * Detects both fonts with the default minimum glyph count, averages their
   * ink boxes and estimates the scale; fails with the first font's detection
   * error, else the second's.
   */
  method Compare(font1: seq<Byte>, font2: seq<Byte>) returns (r: Result<Comparison>)
    ensures r.Err? <==> (forall w, h :: !Scored(font1, DefaultMinGlyphs, w, h))
                        || (forall w, h :: !Scored(font2, DefaultMinGlyphs, w, h))
    ensures r.Ok? ==> ReportsFont(font1, r.value.font1) && ReportsFont(font2, r.value.font2)
    ensures r.Ok? ==> r.value.scale == EstimateScale(r.value.font1.stats, r.value.font2.stats)
  {
    var d1 := SmartDetectGlyphSize(font1, DefaultMinGlyphs);
    if d1.Err? {
      return Err(d1.error);
    }
    var d2 := SmartDetectGlyphSize(font2, DefaultMinGlyphs);
    if d2.Err? {
      return Err(d2.error);
    }
    var g1, w1, h1 := d1.value.glyphs, d1.value.width, d1.value.height;
    var g2, w2, h2 := d2.value.glyphs, d2.value.width, d2.value.height;
    DecodedGlyphsAreRect(font1, w1, h1);
    DecodedGlyphsAreRect(font2, w2, h2);
    var avg1W, avg1H := AvgCharBBox(g1);
    var avg2W, avg2H := AvgCharBBox(g2);
    var stats1, stats2 := FontStats(avg1W, avg1H), FontStats(avg2W, avg2H);
    var scale := EstimateScale(stats1, stats2);
    return Ok(Comparison(FontReport(w1, h1, stats1), FontReport(w2, h2, stats2), scale));
  }
}
