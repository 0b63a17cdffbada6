/**
 * Ink bounding-box statistics over a decoded font (utils/compare_fonts.py,
 * avg_char_bbox).
 *
 * For every glyph, the rows and the columns holding a nonzero pixel are found;
 * the first and last of each give the tight ink box.  Blank glyphs are skipped.
 * The result is the arithmetic mean of the box widths and of the box heights,
 * or 0 when no glyph has ink.
 */
module BBoxStats {
  import opened GlyphGrid
  import opened Wrappers

  /** Number of columns of a glyph: the length of its first row, 0 for a glyph without rows. */
  function Cols(g: Glyph): nat
  {
    if |g| == 0 then 0 else |g[0]|
  }

  /** All rows have the same length, as in a two-dimensional array. */
  predicate Rect(g: Glyph)
  {
    forall r :: 0 <= r < |g| ==> |g[r]| == Cols(g)
  }

  predicate RowHasInk(g: Glyph, r: int)
    requires 0 <= r < |g|
  {
    exists c :: 0 <= c < |g[r]| && g[r][c] != 0
  }

  predicate ColHasInk(g: Glyph, c: int)
    requires Rect(g) && 0 <= c < Cols(g)
  {
    exists r :: 0 <= r < |g| && g[r][c] != 0
  }

  /** Decoded glyphs are rectangular, so the statistics apply to them. */
  lemma DecodedGlyphsAreRect(data: seq<Byte>, w: int, h: int)
    requires Divides(data, w, h)
    ensures forall i :: 0 <= i < |Decode(data, w, h)| ==> Rect(Decode(data, w, h)[i])
  {
    var glyphs := Decode(data, w, h);
    forall i | 0 <= i < |glyphs| ensures Rect(glyphs[i]) {
      assert Shaped(glyphs[i], h, w);
    }
  }

  /** For each row, whether it holds ink (any over axis 1). */
  function InkRows(g: Glyph): (rows: seq<bool>)
    ensures |rows| == |g|
    ensures forall r :: 0 <= r < |g| ==> (rows[r] <==> RowHasInk(g, r))
    ensures true in rows <==> !IsBlank(g)
  {
    var rows := seq(|g|, r requires 0 <= r < |g| => RowHasInk(g, r));
    assert !IsBlank(g) ==> true in rows by {
      if !IsBlank(g) {
        var r, c :| 0 <= r < |g| && 0 <= c < |g[r]| && g[r][c] != 0;
        assert rows[r];
      }
    }
    assert true in rows ==> !IsBlank(g) by {
      if true in rows {
        var r :| 0 <= r < |rows| && rows[r];
        var c :| 0 <= c < |g[r]| && g[r][c] != 0;
      }
    }
    rows
  }

  /** For each column, whether it holds ink (any over axis 0). */
  function InkCols(g: Glyph): (cols: seq<bool>)
    requires Rect(g)
    ensures |cols| == Cols(g)
    ensures forall c :: 0 <= c < Cols(g) ==> (cols[c] <==> ColHasInk(g, c))
    ensures true in cols <==> !IsBlank(g)
  {
    var cols := seq(Cols(g), c requires 0 <= c < Cols(g) => ColHasInk(g, c));
    assert !IsBlank(g) ==> true in cols by {
      if !IsBlank(g) {
        var r, c :| 0 <= r < |g| && 0 <= c < |g[r]| && g[r][c] != 0;
        assert cols[c];
      }
    }
    assert true in cols ==> !IsBlank(g) by {
      if true in cols {
        var c :| 0 <= c < |cols| && cols[c];
        var r :| 0 <= r < |g| && g[r][c] != 0;
      }
    }
    cols
  }

  /** The positions holding `true`, in ascending order (numpy's where on a vector). */
  function TrueIndices(b: seq<bool>): (ix: seq<nat>)
    ensures forall k :: 0 <= k < |ix| ==> ix[k] < |b| && b[ix[k]]
    ensures forall k, l :: 0 <= k < l < |ix| ==> ix[k] < ix[l]
    ensures forall i :: 0 <= i < |b| && b[i] ==> i in ix
  {
    if |b| == 0 then []
    else
      var init := b[..|b| - 1];
      assert forall i :: 0 <= i < |init| ==> init[i] == b[i];
      TrueIndices(init) + (if b[|b| - 1] then [|b| - 1] else [])
  }

  /** A tight ink box: first and last ink row, first and last ink column. */
  datatype BBox = BBox(top: nat, bottom: nat, left: nat, right: nat)
  {
    function Width(): int { right - left + 1 }
    function Height(): int { bottom - top + 1 }
  }

  /** The box `b` encloses every ink pixel of `g`, and its four edges each touch ink. */
  ghost predicate TightBox(g: Glyph, b: BBox)
    requires Rect(g)
  {
    && b.top <= b.bottom < |g| && b.left <= b.right < Cols(g)
    && RowHasInk(g, b.top) && RowHasInk(g, b.bottom)
    && ColHasInk(g, b.left) && ColHasInk(g, b.right)
    && (forall r, c :: 0 <= r < |g| && 0 <= c < Cols(g) && g[r][c] != 0 ==>
          b.top <= r <= b.bottom && b.left <= c <= b.right)
  }

  /** The ink box of one glyph, or None for a blank glyph. */
  function GlyphBox(g: Glyph): (b: Option<BBox>)
    requires Rect(g)
    ensures b.None? <==> IsBlank(g)
    ensures b.Some? ==> TightBox(g, b.value)
  {
    var rows := InkRows(g);
    var cols := InkCols(g);
    if true !in rows || true !in cols then
      None
    else
      IndicesGiveTightBox(g);
      Some(SpanBox(rows, cols))
  }

  /** The box from the first to the last flagged row and column (numpy's where, then [0] and [-1]). */
  function SpanBox(rows: seq<bool>, cols: seq<bool>): BBox
    requires true in rows && true in cols
  {
    SpanEnds(rows);
    SpanEnds(cols);
    var y, x := TrueIndices(rows), TrueIndices(cols);
    BBox(y[0], y[|y| - 1], x[0], x[|x| - 1])
  }

  /** A glyph with no inked row or no inked column is blank: the skip drops only empty glyphs. */
  lemma NoInkLineMeansBlank(g: Glyph)
    requires Rect(g)
    requires true !in InkRows(g) || true !in InkCols(g)
    ensures IsBlank(g)
  {
  }

  /** Every true position lies between the first and the last index numpy's where reports. */
  lemma TrueIndicesSpan(b: seq<bool>, i: int)
    requires 0 <= i < |b| && b[i]
    ensures |TrueIndices(b)| > 0
    ensures TrueIndices(b)[0] <= i <= TrueIndices(b)[|TrueIndices(b)| - 1]
  {
    var ix := TrueIndices(b);
    var k :| 0 <= k < |ix| && ix[k] == i;
    assert ix[0] <= ix[k] <= ix[|ix| - 1];
  }

  lemma IndicesGiveTightBox(g: Glyph)
    requires Rect(g)
    requires true in InkRows(g) && true in InkCols(g)
    ensures TightBox(g, SpanBox(InkRows(g), InkCols(g)))
  {
    var rows, cols := InkRows(g), InkCols(g);
    var y, x := TrueIndices(rows), TrueIndices(cols);
    SpanEnds(rows);
    SpanEnds(cols);
    var b := BBox(y[0], y[|y| - 1], x[0], x[|x| - 1]);
    forall r, c | 0 <= r < |g| && 0 <= c < Cols(g) && g[r][c] != 0
      ensures b.top <= r <= b.bottom && b.left <= c <= b.right
    {
      assert RowHasInk(g, r) && ColHasInk(g, c);
    }
  }

  /** The first and last index numpy's where reports hold `true`, and every `true` lies between them. */
  lemma SpanEnds(b: seq<bool>)
    requires true in b
    ensures |TrueIndices(b)| > 0
    ensures b[TrueIndices(b)[0]] && b[TrueIndices(b)[|TrueIndices(b)| - 1]]
    ensures forall i :: 0 <= i < |b| && b[i] ==> TrueIndices(b)[0] <= i <= TrueIndices(b)[|TrueIndices(b)| - 1]
  {
    var i0 :| 0 <= i0 < |b| && b[i0];
    TrueIndicesSpan(b, i0);
    forall i | 0 <= i < |b| && b[i]
      ensures TrueIndices(b)[0] <= i <= TrueIndices(b)[|TrueIndices(b)| - 1]
    {
      TrueIndicesSpan(b, i);
    }
  }

  /** The ink boxes of the non-blank glyphs, in glyph order: the samples the averages are taken over. */
  function InkBoxes(glyphs: seq<Glyph>): (boxes: seq<BBox>)
    requires forall i :: 0 <= i < |glyphs| ==> Rect(glyphs[i])
  {
    if |glyphs| == 0 then []
    else
      var last := glyphs[|glyphs| - 1];
      InkBoxes(glyphs[..|glyphs| - 1]) + (match GlyphBox(last) case None => [] case Some(b) => [b])
  }

  function Widths(boxes: seq<BBox>): (ws: seq<int>)
    ensures |ws| == |boxes| && forall k :: 0 <= k < |boxes| ==> ws[k] == boxes[k].Width()
  {
    seq(|boxes|, k requires 0 <= k < |boxes| => boxes[k].Width())
  }

  function Heights(boxes: seq<BBox>): (hs: seq<int>)
    ensures |hs| == |boxes| && forall k :: 0 <= k < |boxes| ==> hs[k] == boxes[k].Height()
  {
    seq(|boxes|, k requires 0 <= k < |boxes| => boxes[k].Height())
  }

  function Sum(xs: seq<int>): int
  {
    if |xs| == 0 then 0 else Sum(xs[..|xs| - 1]) + xs[|xs| - 1]
  }

  /** Arithmetic mean, 0 for no samples: the mean times the sample count is the total. */
  function Mean(xs: seq<int>): (m: real)
    ensures |xs| > 0 ==> m * |xs| as real == Sum(xs) as real
    ensures |xs| == 0 ==> m == 0.0
  {
    if |xs| == 0 then 0.0 else Sum(xs) as real / |xs| as real
  }

  lemma NextGlyph(glyphs: seq<Glyph>, i: int)
    requires forall i :: 0 <= i < |glyphs| ==> Rect(glyphs[i])
    requires 0 <= i < |glyphs|
    ensures GlyphBox(glyphs[i]).None? ==> InkBoxes(glyphs[..i + 1]) == InkBoxes(glyphs[..i])
    ensures GlyphBox(glyphs[i]).Some? ==> InkBoxes(glyphs[..i + 1]) == InkBoxes(glyphs[..i]) + [GlyphBox(glyphs[i]).value]
  {
    assert glyphs[..i + 1][..i] == glyphs[..i];
  }

  lemma SamplesAppend(boxes: seq<BBox>, b: BBox)
    ensures Widths(boxes + [b]) == Widths(boxes) + [b.Width()]
    ensures Heights(boxes + [b]) == Heights(boxes) + [b.Height()]
  {
  }

  method AvgCharBBox(glyphs: seq<Glyph>) returns (avgWidth: real, avgHeight: real)
    requires forall i :: 0 <= i < |glyphs| ==> Rect(glyphs[i])
    ensures avgWidth == Mean(Widths(InkBoxes(glyphs)))
    ensures avgHeight == Mean(Heights(InkBoxes(glyphs)))
  {
    var widths: seq<int> := [];
    var heights: seq<int> := [];
    for i := 0 to |glyphs|
      invariant widths == Widths(InkBoxes(glyphs[..i]))
      invariant heights == Heights(InkBoxes(glyphs[..i]))
    {
      NextGlyph(glyphs, i);
      var box := GlyphBox(glyphs[i]);
      if box.None? {
        continue;  // skip empty glyphs
      }
      SamplesAppend(InkBoxes(glyphs[..i]), box.value);
      widths := widths + [box.value.Width()];
      heights := heights + [box.value.Height()];
    }
    assert glyphs[..|glyphs|] == glyphs;
    avgWidth := Mean(widths);
    avgHeight := Mean(heights);
  }
}

/** Properties of the bounding-box statistics. */
module BBoxFacts {
  import opened Wrappers
  import opened GlyphGrid
  import opened BBoxStats

  /** A glyph has at most one tight ink box: GlyphBox's contract pins its result down. */
  lemma TightBoxUnique(g: Glyph, b1: BBox, b2: BBox)
    requires Rect(g) && TightBox(g, b1) && TightBox(g, b2)
    ensures b1 == b2
  {
    var ct :| 0 <= ct < |g[b1.top]| && g[b1.top][ct] != 0;
    var cb :| 0 <= cb < |g[b1.bottom]| && g[b1.bottom][cb] != 0;
    var rl :| 0 <= rl < |g| && g[rl][b1.left] != 0;
    var rr :| 0 <= rr < |g| && g[rr][b1.right] != 0;
    var ct2 :| 0 <= ct2 < |g[b2.top]| && g[b2.top][ct2] != 0;
    var cb2 :| 0 <= cb2 < |g[b2.bottom]| && g[b2.bottom][cb2] != 0;
    var rl2 :| 0 <= rl2 < |g| && g[rl2][b2.left] != 0;
    var rr2 :| 0 <= rr2 < |g| && g[rr2][b2.right] != 0;
  }

  /** A fully inked h-by-w glyph has the whole glyph as its box. */
  lemma FullGlyphBox(g: Glyph, h: int, w: int)
    requires h > 0 && w > 0 && Shaped(g, h, w)
    requires forall r, c :: 0 <= r < h && 0 <= c < w ==> g[r][c] != 0
    ensures Rect(g) && GlyphBox(g) == Some(BBox(0, h - 1, 0, w - 1))
    ensures GlyphBox(g).value.Width() == w && GlyphBox(g).value.Height() == h
  {
    var full := BBox(0, h - 1, 0, w - 1);
    assert g[0][0] != 0 && g[h - 1][w - 1] != 0;
    assert TightBox(g, full);
    TightBoxUnique(g, GlyphBox(g).value, full);
  }

  /** A glyph whose only ink pixel is (r, c) has a 1-by-1 box at (r, c), wherever that is. */
  lemma SinglePixelBox(g: Glyph, r: int, c: int)
    requires Rect(g) && 0 <= r < |g| && 0 <= c < Cols(g) && g[r][c] != 0
    requires forall r', c' :: 0 <= r' < |g| && 0 <= c' < Cols(g) && g[r'][c'] != 0 ==> r' == r && c' == c
    ensures GlyphBox(g) == Some(BBox(r, r, c, c))
    ensures GlyphBox(g).value.Width() == 1 && GlyphBox(g).value.Height() == 1
  {
    var one := BBox(r, r, c, c);
    assert TightBox(g, one);
    assert !IsBlank(g);
    TightBoxUnique(g, GlyphBox(g).value, one);
  }

  /** Inside an h-by-w glyph every box is between 1 and w wide and between 1 and h tall. */
  lemma BoxSize(g: Glyph, h: int, w: int)
    requires Shaped(g, h, w)
    ensures Rect(g)
    ensures GlyphBox(g).Some? ==> 1 <= GlyphBox(g).value.Width() <= w && 1 <= GlyphBox(g).value.Height() <= h
  {
  }

  /** One sample per non-blank glyph, none for a blank one. */
  lemma {:induction false} InkBoxesCount(glyphs: seq<Glyph>)
    requires forall i :: 0 <= i < |glyphs| ==> Rect(glyphs[i])
    ensures |InkBoxes(glyphs)| == CountInked(glyphs)
  {
    if |glyphs| > 0 {
      InkBoxesCount(glyphs[..|glyphs| - 1]);
    }
  }

  /** Each sample is the tight box of some non-blank glyph. */
  lemma {:induction false} InkBoxesAreTight(glyphs: seq<Glyph>, k: int)
    requires forall i :: 0 <= i < |glyphs| ==> Rect(glyphs[i])
    requires 0 <= k < |InkBoxes(glyphs)|
    ensures exists i :: 0 <= i < |glyphs| && !IsBlank(glyphs[i]) && TightBox(glyphs[i], InkBoxes(glyphs)[k])
  {
    var init := glyphs[..|glyphs| - 1];
    var last := glyphs[|glyphs| - 1];
    assert forall i :: 0 <= i < |init| ==> init[i] == glyphs[i];
    if k < |InkBoxes(init)| {
      InkBoxesAreTight(init, k);
      var i :| 0 <= i < |init| && !IsBlank(init[i]) && TightBox(init[i], InkBoxes(init)[k]);
      assert InkBoxes(glyphs)[k] == InkBoxes(init)[k];
    } else {
      var b := GlyphBox(last);
      assert b.Some? && InkBoxes(glyphs) == InkBoxes(init) + [b.value];
      assert TightBox(glyphs[|glyphs| - 1], InkBoxes(glyphs)[k]);
    }
  }

  /**
   * The samples follow the glyph order: the box of a non-blank glyph comes
   * right after one sample per non-blank glyph before it.
   */
  lemma InkBoxesAt(glyphs: seq<Glyph>, i: int)
    requires forall i :: 0 <= i < |glyphs| ==> Rect(glyphs[i])
    requires 0 <= i < |glyphs| && !IsBlank(glyphs[i])
    ensures CountInked(glyphs[..i]) < |InkBoxes(glyphs)|
    ensures InkBoxes(glyphs)[CountInked(glyphs[..i])] == GlyphBox(glyphs[i]).value
  {
    var upTo, after := glyphs[..i + 1], glyphs[i + 1..];
    assert glyphs == upTo + after;
    NextGlyph(glyphs, i);
    InkBoxesAppend(upTo, after);
    InkBoxesCount(glyphs[..i]);
  }

  /** Samples of a concatenation are the concatenated samples: processing goes on past any glyph. */
  lemma {:induction false} InkBoxesAppend(a: seq<Glyph>, b: seq<Glyph>)
    requires forall i :: 0 <= i < |a| ==> Rect(a[i])
    requires forall i :: 0 <= i < |b| ==> Rect(b[i])
    ensures forall i :: 0 <= i < |a + b| ==> Rect((a + b)[i])
    ensures InkBoxes(a + b) == InkBoxes(a) + InkBoxes(b)
    decreases |b|
  {
    if |b| > 0 {
      var b' := b[..|b| - 1];
      assert (a + b)[..|a + b| - 1] == a + b';
      InkBoxesAppend(a, b');
    } else {
      assert a + b == a;
    }
  }

  /** Inserting a blank glyph anywhere leaves the samples, hence both averages, unchanged. */
  lemma BlankGlyphAddsNoSample(a: seq<Glyph>, g: Glyph, b: seq<Glyph>)
    requires forall i :: 0 <= i < |a| ==> Rect(a[i])
    requires forall i :: 0 <= i < |b| ==> Rect(b[i])
    requires Rect(g) && IsBlank(g)
    ensures forall i :: 0 <= i < |a + [g] + b| ==> Rect((a + [g] + b)[i])
    ensures InkBoxes(a + [g] + b) == InkBoxes(a + b)
  {
    InkBoxesAppend(a, [g]);
    assert [g][..0] == [];
    assert GlyphBox(g).None?;
    assert InkBoxes([g]) == [];
    var ag := a + [g];
    assert InkBoxes(ag) == InkBoxes(a);
    InkBoxesAppend(ag, b);
    assert InkBoxes(ag + b) == InkBoxes(a) + InkBoxes(b);
    InkBoxesAppend(a, b);
    assert ag + b == a + [g] + b;
  }

  lemma {:induction false} SumBounds(xs: seq<int>, lo: int, hi: int)
    requires forall k :: 0 <= k < |xs| ==> lo <= xs[k] <= hi
    ensures |xs| * lo <= Sum(xs) <= |xs| * hi
  {
    if |xs| > 0 {
      var init := xs[..|xs| - 1];
      SumBounds(init, lo, hi);
      assert |xs| * lo == |init| * lo + lo;
      assert |xs| * hi == |init| * hi + hi;
    }
  }

  lemma QuotientBounds(s: real, n: real, lo: real, hi: real)
    requires n > 0.0 && n * lo <= s <= n * hi
    ensures lo <= s / n <= hi
  {
    var q := s / n;
    assert q * n == s;
  }

  /** The mean of samples lying in [lo, hi] lies in [lo, hi]. */
  lemma MeanBounds(xs: seq<int>, lo: int, hi: int)
    requires |xs| > 0
    requires forall k :: 0 <= k < |xs| ==> lo <= xs[k] <= hi
    ensures lo as real <= Mean(xs) <= hi as real
  {
    SumBounds(xs, lo, hi);
    var n, total := |xs|, Sum(xs);
    assert Mean(xs) == total as real / n as real;
    IntBoundsAsReal(n, total, lo, hi);
    QuotientBounds(total as real, n as real, lo as real, hi as real);
  }

  lemma IntBoundsAsReal(n: int, total: int, lo: int, hi: int)
    requires n * lo <= total <= n * hi
    ensures n as real * lo as real <= total as real <= n as real * hi as real
  {
    assert (n * lo) as real == n as real * lo as real;
    assert (n * hi) as real == n as real * hi as real;
  }

  /** In a font of h-by-w glyphs every sample is between 1 and w wide and between 1 and h tall. */
  lemma SampleSizes(glyphs: seq<Glyph>, h: int, w: int)
    requires forall i :: 0 <= i < |glyphs| ==> Shaped(glyphs[i], h, w)
    ensures forall i :: 0 <= i < |glyphs| ==> Rect(glyphs[i])
    ensures forall k :: 0 <= k < |InkBoxes(glyphs)| ==>
              1 <= InkBoxes(glyphs)[k].Width() <= w && 1 <= InkBoxes(glyphs)[k].Height() <= h
  {
    forall i | 0 <= i < |glyphs| ensures Rect(glyphs[i]) { BoxSize(glyphs[i], h, w); }
    var boxes := InkBoxes(glyphs);
    forall k | 0 <= k < |boxes|
      ensures 1 <= boxes[k].Width() <= w && 1 <= boxes[k].Height() <= h
    {
      InkBoxesAreTight(glyphs, k);
      var i :| 0 <= i < |glyphs| && !IsBlank(glyphs[i]) && TightBox(glyphs[i], boxes[k]);
      BoxSize(glyphs[i], h, w);
      TightBoxUnique(glyphs[i], GlyphBox(glyphs[i]).value, boxes[k]);
    }
  }

  /**
   * For a font of h-by-w glyphs, both averages are 0 when every glyph is blank,
   * and otherwise the mean width lies in [1, w] and the mean height in [1, h].
   */
  lemma AverageBounds(glyphs: seq<Glyph>, h: int, w: int)
    requires forall i :: 0 <= i < |glyphs| ==> Shaped(glyphs[i], h, w)
    ensures forall i :: 0 <= i < |glyphs| ==> Rect(glyphs[i])
    ensures CountInked(glyphs) == 0 ==>
              Mean(Widths(InkBoxes(glyphs))) == 0.0 && Mean(Heights(InkBoxes(glyphs))) == 0.0
    ensures CountInked(glyphs) > 0 ==>
              1.0 <= Mean(Widths(InkBoxes(glyphs))) <= w as real
              && 1.0 <= Mean(Heights(InkBoxes(glyphs))) <= h as real
  {
    SampleSizes(glyphs, h, w);
    InkBoxesCount(glyphs);
    var boxes := InkBoxes(glyphs);
    if |boxes| > 0 {
      SampleMeans(boxes, h, w);
    }
  }

  lemma SampleMeans(boxes: seq<BBox>, h: int, w: int)
    requires |boxes| > 0
    requires forall k :: 0 <= k < |boxes| ==> 1 <= boxes[k].Width() <= w && 1 <= boxes[k].Height() <= h
    ensures 1.0 <= Mean(Widths(boxes)) <= w as real && 1.0 <= Mean(Heights(boxes)) <= h as real
  {
    MeanBounds(Widths(boxes), 1, w);
    MeanBounds(Heights(boxes), 1, h);
  }
}
