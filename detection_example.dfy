/**
 * A worked instance of the glyph-grid search: a 4096-byte blob laid out as
 * 64 glyphs of 8x8 pixels, exactly one of them fully inked.
 *
 * Every admissible grid of that blob has a glyph size dividing 64, so every
 * one of them sees the inked 64 bytes as a whole number of inked glyphs and
 * scores exactly 1/64.  With all scores tied, the search keeps the first
 * candidate it visits, (4, 4), and not the 8x8 layout the blob was made from.
 */
module DetectionExample {
  import opened GlyphGrid
  import opened BBoxStats
  import BBoxFacts

  /** 4096 bytes, zero except the 64 bytes of 8x8 glyph `t`, which are all 255. */
  function OneInkedGlyph(t: int): (data: seq<Byte>)
    ensures |data| == 4096
    ensures forall j :: 0 <= j < 4096 ==> (data[j] != 0 <==> 64 * t <= j < 64 * t + 64)
  {
    seq(4096, j => if 64 * t <= j < 64 * t + 64 then 255 else 0)
  }

  /** The only glyph sizes the search accepts for a 4096-byte blob and the default minimum of 64 glyphs. */
  lemma ScoredSizes(data: seq<Byte>, w: int, h: int)
    requires |data| == 4096 && Scored(data, DefaultMinGlyphs, w, h)
    ensures w * h == 16 || w * h == 32 || w * h == 64
  {
    AtLeast16(w, h);
    AtMost64(w * h);
    Divisor4096(w * h);
  }

  lemma AtLeast16(w: int, h: int)
    requires w >= 4 && h >= 4
    ensures w * h >= 16
  {
    assert w * h == 4 * h + (w - 4) * h;
  }

  lemma AtMost64(g: int)
    requires g > 0 && 4096 % g == 0 && 4096 / g >= 64
    ensures g <= 64
  {
    var q := 4096 / g;
    assert q * g == 4096;
    assert q * g == 64 * g + (q - 64) * g;
  }

  lemma Divisor4096(g: int)
    requires 16 <= g <= 64 && 4096 % g == 0
    ensures g == 16 || g == 32 || g == 64
  {
  }

  /**
   * Where glyph i of size g sits against 8x8 glyph t when k glyphs of size g
   * make up one 8x8 glyph: inside it for the k indices from t*k on, wholly
   * before or wholly after it otherwise.
   */
  lemma GlyphPlacement(t: int, k: int, g: int, i: int)
    requires k > 0 && g > 0 && k * g == 64
    ensures t * k <= i < t * k + k ==> 64 * t <= i * g && i * g + g <= 64 * t + 64
    ensures i < t * k ==> i * g + g <= 64 * t
    ensures t * k + k <= i ==> 64 * t + 64 <= i * g
  {
    var m := t * k;
    assert m * g == t * (k * g) == 64 * t;
    assert (m + k) * g == m * g + k * g;
    assert (i + 1) * g == i * g + g;
    if m <= i < m + k {
      MulLe(m, i, g);
      MulLe(i + 1, m + k, g);
    } else if i < m {
      MulLe(i + 1, m, g);
    } else {
      MulLe(m + k, i, g);
    }
  }

  /**
   * With a glyph size g dividing 64, read as k = 64 / g glyphs per 8x8 glyph,
   * glyph `i` is inked exactly when it is one of the k glyphs covering the
   * inked 64 bytes.
   */
  lemma InkedGlyph(t: int, w: int, h: int, k: int, i: int)
    requires 0 <= t < 64 && w > 0 && h > 0 && k > 0 && k * (w * h) == 64
    requires Divides(OneInkedGlyph(t), w, h) && 0 <= i < 4096 / (w * h)
    ensures !IsBlank(Decode(OneInkedGlyph(t), w, h)[i]) <==> t * k <= i < t * k + k
  {
    var data := OneInkedGlyph(t);
    GlyphPlacement(t, k, w * h, i);
    var glyph := Decode(data, w, h)[i];
    if t * k <= i < t * k + k {
      DecodePixel(data, w, h, i, 0, 0);
      assert glyph[0][0] != 0;
    } else {
      forall r, c | 0 <= r < |glyph| && 0 <= c < |glyph[r]|
        ensures glyph[r][c] == 0
      {
        DecodePixel(data, w, h, i, r, c);
        RowMajorBound(w, h, r, c);
      }
    }
  }

  /** Each of those k glyphs lies wholly inside the inked 64 bytes, so every pixel of it is inked. */
  lemma FullyInkedGlyph(t: int, w: int, h: int, k: int, i: int)
    requires 0 <= t < 64 && w > 0 && h > 0 && k > 0 && k * (w * h) == 64
    requires Divides(OneInkedGlyph(t), w, h) && 0 <= i < 4096 / (w * h)
    requires t * k <= i < t * k + k
    ensures forall r, c :: 0 <= r < h && 0 <= c < w ==> Decode(OneInkedGlyph(t), w, h)[i][r][c] != 0
  {
    GlyphPlacement(t, k, w * h, i);
    forall r, c | 0 <= r < h && 0 <= c < w
      ensures Decode(OneInkedGlyph(t), w, h)[i][r][c] != 0
    {
      DecodePixel(OneInkedGlyph(t), w, h, i, r, c);
      RowMajorBound(w, h, r, c);
    }
  }

  /** How many glyphs of size g make up one 8x8 glyph, and how many make up the blob. */
  lemma GlyphsPer64(g: int)
    requires g == 16 || g == 32 || g == 64
    ensures 64 / g > 0 && (64 / g) * g == 64 && 4096 / g == 64 * (64 / g)
  {
  }

  /** The k glyphs of 8x8 glyph t are among the 64 * k glyphs of the blob. */
  lemma InkedRangeFits(t: int, k: int)
    requires 0 <= t < 64 && k > 0
    ensures 0 <= t * k && t * k + k <= 64 * k
  {
    MulLe(0, t, k);
    MulLe(t + 1, 64, k);
    assert (t + 1) * k == t * k + k;
  }

  lemma OneIn64(k: int)
    requires k > 0
    ensures k as real / (64 * k) as real == 1.0 / 64.0
  {
  }

  /** Glyphs inked exactly on the index range [a, b) count b - a inked glyphs among their first m. */
  lemma {:induction false} CountInkedRange(glyphs: seq<Glyph>, a: int, b: int, m: int)
    requires 0 <= a <= b <= |glyphs| && 0 <= m <= |glyphs|
    requires forall i :: 0 <= i < |glyphs| ==> (!IsBlank(glyphs[i]) <==> a <= i < b)
    ensures CountInked(glyphs[..m]) == if m <= a then 0 else if m <= b then m - a else b - a
    decreases m
  {
    if m > 0 {
      CountInkedRange(glyphs, a, b, m - 1);
      assert glyphs[..m][..m - 1] == glyphs[..m - 1];
      assert glyphs[..m][m - 1] == glyphs[m - 1];
    }
  }

  /** Every grid the search scores gives this blob the same score, 1/64. */
  lemma ScoreIsOneIn64(t: int, w: int, h: int)
    requires 0 <= t < 64 && Scored(OneInkedGlyph(t), DefaultMinGlyphs, w, h)
    ensures Score(OneInkedGlyph(t), w, h) == 1.0 / 64.0
  {
    var data := OneInkedGlyph(t);
    ScoredSizes(data, w, h);
    var g := w * h;
    var k := 64 / g;
    GlyphsPer64(g);
    var glyphs := Decode(data, w, h);
    forall i | 0 <= i < |glyphs|
      ensures !IsBlank(glyphs[i]) <==> t * k <= i < t * k + k
    {
      InkedGlyph(t, w, h, k, i);
    }
    InkedRangeFits(t, k);
    CountInkedRange(glyphs, t * k, t * k + k, |glyphs|);
    assert glyphs[..|glyphs|] == glyphs;
    OneIn64(k);
  }

  /**
   * The search settles on the 4x4 grid for this blob: every candidate ties,
   * (4, 4) comes first, and the 8x8 grid the blob was laid out with loses the
   * tie-break.
   */
  lemma OneInkedGlyphDetectsSmallestGrid(t: int)
    requires 0 <= t < 64
    ensures IsBest(OneInkedGlyph(t), DefaultMinGlyphs, MinWidth, MinHeight)
    ensures Scored(OneInkedGlyph(t), DefaultMinGlyphs, 8, 8)
    ensures Score(OneInkedGlyph(t), 8, 8) == Score(OneInkedGlyph(t), MinWidth, MinHeight)
    ensures !IsBest(OneInkedGlyph(t), DefaultMinGlyphs, 8, 8)
  {
    var data := OneInkedGlyph(t);
    assert Scored(data, DefaultMinGlyphs, 4, 4);
    assert Scored(data, DefaultMinGlyphs, 8, 8);
    ScoreIsOneIn64(t, 4, 4);
    ScoreIsOneIn64(t, 8, 8);
    forall w, h | Scored(data, DefaultMinGlyphs, w, h)
      ensures Score(data, w, h) == 1.0 / 64.0
    {
      ScoreIsOneIn64(t, w, h);
    }
  }

  /** Every ink box of the decoded blob is the whole w-by-h cell. */
  lemma InkBoxesAreCells(t: int, w: int, h: int, k: int)
    requires 0 <= t < 64 && w > 0 && h > 0 && k > 0 && k * (w * h) == 64
    requires Divides(OneInkedGlyph(t), w, h)
    requires forall i :: 0 <= i < |Decode(OneInkedGlyph(t), w, h)| ==> Rect(Decode(OneInkedGlyph(t), w, h)[i])
    ensures forall j :: 0 <= j < |InkBoxes(Decode(OneInkedGlyph(t), w, h))| ==>
              InkBoxes(Decode(OneInkedGlyph(t), w, h))[j].Width() == w
              && InkBoxes(Decode(OneInkedGlyph(t), w, h))[j].Height() == h
  {
    var glyphs := Decode(OneInkedGlyph(t), w, h);
    var boxes := InkBoxes(glyphs);
    forall j | 0 <= j < |boxes|
      ensures boxes[j].Width() == w && boxes[j].Height() == h
    {
      BBoxFacts.InkBoxesAreTight(glyphs, j);
      var i :| 0 <= i < |glyphs| && !IsBlank(glyphs[i]) && TightBox(glyphs[i], boxes[j]);
      InkedGlyph(t, w, h, k, i);
      FullyInkedGlyph(t, w, h, k, i);
      BBoxFacts.FullGlyphBox(glyphs[i], h, w);
      BBoxFacts.TightBoxUnique(glyphs[i], GlyphBox(glyphs[i]).value, boxes[j]);
    }
  }

  /**
   * Under any grid the search scores, the inked glyphs of this blob fill
   * their whole cell, so the average ink box is exactly the cell: 4.00 x 4.00
   * under the detected 4x4 grid, where the 8x8 layout would give 8.00 x 8.00.
   */
  lemma AverageBoxIsCell(t: int, w: int, h: int)
    requires 0 <= t < 64 && Scored(OneInkedGlyph(t), DefaultMinGlyphs, w, h)
    ensures forall i :: 0 <= i < |Decode(OneInkedGlyph(t), w, h)| ==> Rect(Decode(OneInkedGlyph(t), w, h)[i])
    ensures Mean(Widths(InkBoxes(Decode(OneInkedGlyph(t), w, h)))) == w as real
    ensures Mean(Heights(InkBoxes(Decode(OneInkedGlyph(t), w, h)))) == h as real
  {
    var data := OneInkedGlyph(t);
    var glyphs := Decode(data, w, h);
    BBoxFacts.SampleSizes(glyphs, h, w);
    ScoredSizes(data, w, h);
    GlyphsPer64(w * h);
    InkBoxesAreCells(t, w, h, 64 / (w * h));
    ScoreIsOneIn64(t, w, h);
    ScoreExtremes(data, w, h);
    BBoxFacts.InkBoxesCount(glyphs);
    var boxes := InkBoxes(glyphs);
    BBoxFacts.MeanBounds(Widths(boxes), w, w);
    BBoxFacts.MeanBounds(Heights(boxes), h, h);
  }
}
