/**
 * Glyph-grid detection for a headerless bitmap font blob (utils/compare_fonts.py,
 * smart_detect_glyph_size).
 *
 * The blob is a flat byte sequence.  A candidate grid (w, h) cuts it into
 * consecutive w*h-byte glyphs, each h rows of w pixels in row-major order.
 * Every candidate in the bounded search space is scored by the fraction of its
 * glyphs holding at least one nonzero byte; the first candidate (ascending
 * width, then ascending height) with the highest score wins.
 */
module GlyphGrid {
  import opened Wrappers

  type Byte = b: int | 0 <= b < 256

  /** One decoded glyph: a sequence of rows, each a sequence of pixel bytes. */
  type Glyph = seq<seq<Byte>>

  const MinWidth: int := 4
  const MaxWidth: int := 32
  const MinHeight: int := 4
  const MaxHeight: int := 64
  const DefaultMinGlyphs: int := 64

  datatype DetectionError = NoGlyphGrid

  datatype Result<T> = Ok(value: T) | Err(error: DetectionError)

  /** What a successful detection hands back: the glyph array, width and height. */
  datatype Detection = Detection(glyphs: seq<Glyph>, width: int, height: int)

  // ---------------------------------------------------------------------------
  // Decoding a blob into glyphs (the numpy reshape, as flat indexing)
  // ---------------------------------------------------------------------------

  /** Cuts `s` into `n` consecutive blocks of `k` elements each. */
  function Blocks(s: seq<Byte>, k: nat, n: nat): (r: seq<seq<Byte>>)
    requires |s| == n * k
    ensures |r| == n
    ensures forall i :: 0 <= i < n ==> |r[i]| == k
    decreases n
  {
    if n == 0 then [] else [s[..k]] + Blocks(s[k..], k, n - 1)
  }

  /** Element `j` of block `i` is element `i*k + j` of the flat sequence. */
  lemma {:induction false} BlocksAt(s: seq<Byte>, k: nat, n: nat, i: nat, j: nat)
    requires |s| == n * k
    requires i < n && j < k
    ensures i * k + j < |s|
    ensures Blocks(s, k, n)[i][j] == s[i * k + j]
    decreases i
  {
    if i > 0 {
      BlocksAt(s[k..], k, n - 1, i - 1, j);
      assert (i - 1) * k + j + k == i * k + j;
    }
  }

  lemma DivExact(x: nat, g: nat)
    requires g > 0 && x % g == 0
    ensures x == (x / g) * g
  {
  }

  /** Reading a blob as a grid of w-by-h glyphs; defined only when the size divides exactly. */
  predicate Divides(data: seq<Byte>, w: int, h: int)
  {
    w > 0 && h > 0 && |data| % (w * h) == 0
  }

  /** The glyph array obtained by reading `data` as consecutive h-row, w-column glyphs. */
  function Decode(data: seq<Byte>, w: int, h: int): (glyphs: seq<Glyph>)
    requires Divides(data, w, h)
    ensures |glyphs| == |data| / (w * h)
    ensures forall i :: 0 <= i < |glyphs| ==> Shaped(glyphs[i], h, w)
  {
    var n := |data| / (w * h);
    DivExact(|data|, w * h);
    var blocks := Blocks(data, w * h, n);
    seq(n, i requires 0 <= i < n => Blocks(blocks[i], w, h))
  }

  /** A glyph with exactly `h` rows of `w` pixels each. */
  predicate Shaped(g: Glyph, h: int, w: int)
  {
    |g| == h && forall r :: 0 <= r < |g| ==> |g[r]| == w
  }

  /**
   * Pixel (r, c) of glyph i is byte i*w*h + r*w + c of the blob, and that byte
   * exists: the glyphs partition the blob with no remainder.
   */
  lemma DecodePixel(data: seq<Byte>, w: int, h: int, i: int, r: int, c: int)
    requires Divides(data, w, h)
    requires 0 <= i < |data| / (w * h) && 0 <= r < h && 0 <= c < w
    ensures i * (w * h) + r * w + c < |data|
    ensures Decode(data, w, h)[i][r][c] == data[i * (w * h) + r * w + c]
  {
    var n := |data| / (w * h);
    DivExact(|data|, w * h);
    var blocks := Blocks(data, w * h, n);
    BlocksAt(blocks[i], w, h, r, c);
    BlocksAt(data, w * h, n, i, r * w + c);
  }

  /** The glyph count times the glyph size is the whole blob. */
  lemma DecodeCoversBlob(data: seq<Byte>, w: int, h: int)
    requires Divides(data, w, h)
    ensures |Decode(data, w, h)| * (w * h) == |data|
  {
    DivExact(|data|, w * h);
  }

  lemma MulLe(a: int, b: int, g: int)
    requires a <= b && g >= 0
    ensures a * g <= b * g
  {
    assert b * g == a * g + (b - a) * g;
  }

  /** A pixel of an h-row, w-column glyph lies within the glyph's w*h bytes. */
  lemma RowMajorBound(w: int, h: int, r: int, c: int)
    requires 0 <= r < h && 0 <= c < w
    ensures 0 <= r * w + c < w * h
  {
    MulLe(r, h - 1, w);
    assert (h - 1) * w == w * h - w;
  }

  /** Conversely, each of a glyph's w*h bytes is the pixel at row t / w, column t % w. */
  lemma RowMajorSplit(w: int, h: int, t: int)
    requires w > 0 && 0 <= t < w * h
    ensures 0 <= t / w < h && 0 <= t % w < w && (t / w) * w + t % w == t
  {
    if t / w >= h {
      MulLe(h, t / w, w);
    }
  }

  /** Glyph i of the grid is blank exactly when its w*h bytes of the blob are all zero. */
  lemma BlankGlyphBytes(data: seq<Byte>, w: int, h: int, i: int)
    requires Divides(data, w, h) && 0 <= i < |data| / (w * h)
    ensures i * (w * h) + w * h <= |data|
    ensures IsBlank(Decode(data, w, h)[i]) <==>
              forall j :: i * (w * h) <= j < i * (w * h) + w * h ==> data[j] == 0
  {
    var g := Decode(data, w, h)[i];
    var size := w * h;
    var base := i * size;
    DecodeCoversBlob(data, w, h);
    MulLe(i + 1, |data| / size, size);
    assert (i + 1) * size == base + size;
    if IsBlank(g) {
      forall j | base <= j < base + size
        ensures data[j] == 0
      {
        var t := j - base;
        RowMajorSplit(w, h, t);
        DecodePixel(data, w, h, i, t / w, t % w);
      }
    } else {
      var r, c :| 0 <= r < |g| && 0 <= c < |g[r]| && g[r][c] != 0;
      RowMajorBound(w, h, r, c);
      DecodePixel(data, w, h, i, r, c);
    }
  }

  /**
   * A candidate is scored exactly when it lies in the search bounds and the blob
   * is a whole, non-zero number of w*h glyphs, at least the required minimum.
   */
  lemma ScoredMeansTiling(data: seq<Byte>, minGlyphs: int, w: int, h: int)
    ensures Scored(data, minGlyphs, w, h) <==>
              && MinWidth <= w <= MaxWidth && MinHeight <= h <= MaxHeight
              && exists n: nat :: n >= 1 && n >= minGlyphs && n * (w * h) == |data|
  {
    if Scored(data, minGlyphs, w, h) {
      DivExact(|data|, w * h);
      var n := |data| / (w * h);
      assert n * (w * h) == |data|;
    }
    if MinWidth <= w <= MaxWidth && MinHeight <= h <= MaxHeight
       && exists n: nat :: n >= 1 && n >= minGlyphs && n * (w * h) == |data| {
      var n: nat :| n >= 1 && n >= minGlyphs && n * (w * h) == |data|;
      MultipleDivides(n, w * h);
    }
  }

  /** A multiple of k leaves no remainder and gives its factor back. */
  lemma MultipleDivides(n: nat, k: int)
    requires k > 0
    ensures (n * k) % k == 0 && (n * k) / k == n
  {
    var q, r := (n * k) / k, (n * k) % k;
    assert (n - q) * k == r by {
      assert n * k == q * k + r;
    }
    if n > q {
      MulLe(1, n - q, k);
    } else if n < q {
      MulLe(n - q, -1, k);
    }
  }

  // ---------------------------------------------------------------------------
  // Scoring
  // ---------------------------------------------------------------------------

  /** A glyph with no nonzero pixel. */
  predicate IsBlank(g: Glyph)
  {
    forall r, c :: 0 <= r < |g| && 0 <= c < |g[r]| ==> g[r][c] == 0
  }

  /** The number of glyphs holding at least one nonzero pixel. */
  function CountInked(glyphs: seq<Glyph>): (k: nat)
    ensures k <= |glyphs|
    ensures k == 0 <==> forall i :: 0 <= i < |glyphs| ==> IsBlank(glyphs[i])
    ensures k == |glyphs| <==> forall i :: 0 <= i < |glyphs| ==> !IsBlank(glyphs[i])
  {
    if |glyphs| == 0 then 0
    else
      var init := glyphs[..|glyphs| - 1];
      assert forall i :: 0 <= i < |init| ==> init[i] == glyphs[i];
      CountInked(init) + (if IsBlank(glyphs[|glyphs| - 1]) then 0 else 1)
  }

  /** The candidate passes the size tests of the search: divisibility and minimum glyph count. */
  predicate Admissible(data: seq<Byte>, minGlyphs: int, w: int, h: int)
  {
    MinWidth <= w <= MaxWidth && MinHeight <= h <= MaxHeight
    && |data| % (w * h) == 0 && |data| / (w * h) >= minGlyphs
  }

  /**
   * The candidate is admissible and actually gets a score.  An admissible
   * candidate with zero glyphs (an empty blob with a minimum of zero or less)
   * divides zero by zero; the search catches that and moves on.
   */
  predicate Scored(data: seq<Byte>, minGlyphs: int, w: int, h: int)
  {
    Admissible(data, minGlyphs, w, h) && |data| / (w * h) > 0
  }

  /** Fraction of non-blank glyphs, as an exact ratio. */
  function Score(data: seq<Byte>, w: int, h: int): (s: real)
    requires Divides(data, w, h) && |data| / (w * h) > 0
    ensures 0.0 <= s <= 1.0
  {
    var glyphs := Decode(data, w, h);
    RatioInUnit(CountInked(glyphs), |glyphs|);
    CountInked(glyphs) as real / |glyphs| as real
  }

  /** A score of 0 means every glyph is blank; a score of 1 means none is. */
  lemma ScoreExtremes(data: seq<Byte>, w: int, h: int)
    requires Divides(data, w, h) && |data| / (w * h) > 0
    ensures Score(data, w, h) == 0.0 <==> forall i :: 0 <= i < |data| / (w * h) ==> IsBlank(Decode(data, w, h)[i])
    ensures Score(data, w, h) == 1.0 <==> forall i :: 0 <= i < |data| / (w * h) ==> !IsBlank(Decode(data, w, h)[i])
  {
    var glyphs := Decode(data, w, h);
    RatioInUnit(CountInked(glyphs), |glyphs|);
  }

  lemma RatioInUnit(k: nat, n: nat)
    requires 0 < n && k <= n
    ensures 0.0 <= k as real / n as real <= 1.0
    ensures k as real / n as real == 0.0 <==> k == 0
    ensures k as real / n as real == 1.0 <==> k == n
  {
    var q := k as real / n as real;
    assert q * n as real == k as real;
  }

  /** Search order: ascending width, then ascending height. */
  predicate Precedes(w1: int, h1: int, w2: int, h2: int)
  {
    w1 < w2 || (w1 == w2 && h1 < h2)
  }

  /**
   * (w, h) is the grid the search must return: it is scored, no scored candidate
   * beats it, and every scored candidate before it in search order scores lower.
   */
  ghost predicate IsBest(data: seq<Byte>, minGlyphs: int, w: int, h: int)
  {
    && Scored(data, minGlyphs, w, h)
    && (forall w', h' :: Scored(data, minGlyphs, w', h') ==> Score(data, w', h') <= Score(data, w, h))
    && (forall w', h' :: Scored(data, minGlyphs, w', h') && Precedes(w', h', w, h) ==>
          Score(data, w', h') < Score(data, w, h))
  }

  /** At most one grid is the best: the tie-break leaves the search no choice. */
  lemma BestUnique(data: seq<Byte>, minGlyphs: int, w1: int, h1: int, w2: int, h2: int)
    requires IsBest(data, minGlyphs, w1, h1) && IsBest(data, minGlyphs, w2, h2)
    ensures w1 == w2 && h1 == h2
  {
  }


  // ---------------------------------------------------------------------------
  // The search
  // ---------------------------------------------------------------------------

  method SmartDetectGlyphSize(data: seq<Byte>, minGlyphs: int) returns (r: Result<Detection>)
    ensures r.Err? <==> forall w, h :: !Scored(data, minGlyphs, w, h)
    ensures r.Ok? ==> IsBest(data, minGlyphs, r.value.width, r.value.height)
    ensures r.Ok? ==> r.value.glyphs == Decode(data, r.value.width, r.value.height)
  {
    var filesize := |data|;
    var bestScore: real := -1.0;
    var bestGlyphs: Option<seq<Glyph>> := None;
    var bestW, bestH := 0, 0;
    for w := 4 to 33
      invariant SearchState(data, minGlyphs, w, 4, bestGlyphs.Some?, bestW, bestH, bestScore)
      invariant HoldsDecoded(data, bestGlyphs, bestW, bestH)
    {
      for h := 4 to 65
        invariant SearchState(data, minGlyphs, w, h, bestGlyphs.Some?, bestW, bestH, bestScore)
        invariant HoldsDecoded(data, bestGlyphs, bestW, bestH)
      {
        var gsize := w * h;
        if filesize % gsize != 0 {
          SkipCandidate(data, minGlyphs, w, h, bestGlyphs.Some?, bestW, bestH, bestScore);
          continue;
        }
        var numGlyphs := filesize / gsize;
        if numGlyphs < minGlyphs {
          SkipCandidate(data, minGlyphs, w, h, bestGlyphs.Some?, bestW, bestH, bestScore);
          continue;
        }
        if numGlyphs == 0 {
          // non_empty / num_glyphs divides by zero; the exception is caught
          SkipCandidate(data, minGlyphs, w, h, bestGlyphs.Some?, bestW, bestH, bestScore);
          continue;
        }
        var glyphs := Decode(data, w, h);
        var nonEmpty := CountInked(glyphs);
        var score := nonEmpty as real / numGlyphs as real;
        ScoreOf(data, w, h);
        if score > bestScore {
          TakeCandidate(data, minGlyphs, w, h, bestGlyphs.Some?, bestW, bestH, bestScore);
          bestScore := score;
          bestGlyphs := Some(glyphs);
          bestW, bestH := w, h;
        } else {
          KeepBest(data, minGlyphs, w, h, bestGlyphs.Some?, bestW, bestH, bestScore);
        }
      }
      NextWidth(data, minGlyphs, w, bestGlyphs.Some?, bestW, bestH, bestScore);
    }
    SearchDone(data, minGlyphs, bestGlyphs.Some?, bestW, bestH, bestScore);
    if bestGlyphs.None? {
      return Err(NoGlyphGrid);
    }
    return Ok(Detection(bestGlyphs.value, bestW, bestH));
  }

  // ---------------------------------------------------------------------------
  // The search's loop invariant and its preservation, one step at a time
  // ---------------------------------------------------------------------------

  /** No candidate before (w, h) in search order is scored. */
  ghost predicate NoneSoFar(data: seq<Byte>, minGlyphs: int, w: int, h: int)
  {
    forall cw, ch :: Scored(data, minGlyphs, cw, ch) ==> !Precedes(cw, ch, w, h)
  }

  /** (bw, bh) is the best of the candidates before (w, h) in search order, and `best` is its score. */
  ghost predicate BestSoFar(data: seq<Byte>, minGlyphs: int, w: int, h: int, bw: int, bh: int, best: real)
  {
    && Scored(data, minGlyphs, bw, bh)
    && Precedes(bw, bh, w, h)
    && best == Score(data, bw, bh)
    && (forall cw, ch :: Scored(data, minGlyphs, cw, ch) && Precedes(cw, ch, w, h) ==> Score(data, cw, ch) <= best)
    && (forall cw, ch :: Scored(data, minGlyphs, cw, ch) && Precedes(cw, ch, w, h) && Precedes(cw, ch, bw, bh) ==>
          Score(data, cw, ch) < best)
  }

  /** The search state at (w, h): nothing found yet with best_score still -1, or a best so far. */
  ghost predicate SearchState(data: seq<Byte>, minGlyphs: int, w: int, h: int,
                              found: bool, bw: int, bh: int, best: real)
  {
    if found then BestSoFar(data, minGlyphs, w, h, bw, bh, best)
    else best == -1.0 && NoneSoFar(data, minGlyphs, w, h)
  }

  /** The glyph array kept by the search is the decoding of the kept grid. */
  predicate HoldsDecoded(data: seq<Byte>, kept: Option<seq<Glyph>>, w: int, h: int)
  {
    kept.Some? ==> Divides(data, w, h) && kept.value == Decode(data, w, h)
  }

  lemma ScoreOf(data: seq<Byte>, w: int, h: int)
    requires Divides(data, w, h) && |data| / (w * h) > 0
    ensures Score(data, w, h) == CountInked(Decode(data, w, h)) as real / (|data| / (w * h)) as real
  {
  }

  lemma SkipCandidate(data: seq<Byte>, minGlyphs: int, w: int, h: int,
                      found: bool, bw: int, bh: int, best: real)
    requires !Scored(data, minGlyphs, w, h)
    requires SearchState(data, minGlyphs, w, h, found, bw, bh, best)
    ensures SearchState(data, minGlyphs, w, h + 1, found, bw, bh, best)
  {
    forall cw, ch | Scored(data, minGlyphs, cw, ch) && Precedes(cw, ch, w, h + 1)
      ensures Precedes(cw, ch, w, h)
    {
    }
  }

  lemma TakeCandidate(data: seq<Byte>, minGlyphs: int, w: int, h: int,
                      found: bool, bw: int, bh: int, best: real)
    requires Scored(data, minGlyphs, w, h)
    requires SearchState(data, minGlyphs, w, h, found, bw, bh, best)
    requires Score(data, w, h) > best
    ensures SearchState(data, minGlyphs, w, h + 1, true, w, h, Score(data, w, h))
  {
    if found {
      TakeBetter(data, minGlyphs, w, h, bw, bh, best);
    } else {
      TakeFirst(data, minGlyphs, w, h);
    }
  }

  lemma TakeFirst(data: seq<Byte>, minGlyphs: int, w: int, h: int)
    requires Scored(data, minGlyphs, w, h)
    requires NoneSoFar(data, minGlyphs, w, h)
    ensures BestSoFar(data, minGlyphs, w, h + 1, w, h, Score(data, w, h))
  {
    forall cw, ch | Scored(data, minGlyphs, cw, ch) && Precedes(cw, ch, w, h + 1)
      ensures cw == w && ch == h
    {
      assert !Precedes(cw, ch, w, h);
    }
  }

  lemma TakeBetter(data: seq<Byte>, minGlyphs: int, w: int, h: int, bw: int, bh: int, best: real)
    requires Scored(data, minGlyphs, w, h)
    requires BestSoFar(data, minGlyphs, w, h, bw, bh, best)
    requires Score(data, w, h) > best
    ensures BestSoFar(data, minGlyphs, w, h + 1, w, h, Score(data, w, h))
  {
    forall cw, ch | Scored(data, minGlyphs, cw, ch) && Precedes(cw, ch, w, h + 1) && (cw != w || ch != h)
      ensures Score(data, cw, ch) < Score(data, w, h)
    {
      assert Precedes(cw, ch, w, h);
    }
  }

  lemma KeepBest(data: seq<Byte>, minGlyphs: int, w: int, h: int,
                 found: bool, bw: int, bh: int, best: real)
    requires Scored(data, minGlyphs, w, h)
    requires SearchState(data, minGlyphs, w, h, found, bw, bh, best)
    requires found && Score(data, w, h) <= best
    ensures SearchState(data, minGlyphs, w, h + 1, found, bw, bh, best)
  {
    assert !Precedes(w, h, bw, bh);
    forall cw, ch | Scored(data, minGlyphs, cw, ch) && Precedes(cw, ch, w, h + 1)
      ensures Score(data, cw, ch) <= best
    {
      if cw != w || ch != h {
        assert Precedes(cw, ch, w, h);
      }
    }
    forall cw, ch | Scored(data, minGlyphs, cw, ch) && Precedes(cw, ch, w, h + 1) && Precedes(cw, ch, bw, bh)
      ensures Score(data, cw, ch) < best
    {
      assert Precedes(cw, ch, w, h);
    }
  }

  lemma NextWidth(data: seq<Byte>, minGlyphs: int, w: int,
                  found: bool, bw: int, bh: int, best: real)
    requires SearchState(data, minGlyphs, w, MaxHeight + 1, found, bw, bh, best)
    ensures SearchState(data, minGlyphs, w + 1, MinHeight, found, bw, bh, best)
  {
  }

  lemma SearchDone(data: seq<Byte>, minGlyphs: int, found: bool, bw: int, bh: int, best: real)
    requires SearchState(data, minGlyphs, MaxWidth + 1, MinHeight, found, bw, bh, best)
    ensures !found <==> forall w, h :: !Scored(data, minGlyphs, w, h)
    ensures found ==> IsBest(data, minGlyphs, bw, bh)
  {
  }
}
