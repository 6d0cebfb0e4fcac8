/** `orderedDithering` of `image-to-pixel.js` and its three Bayer tables: each
    pixel is shifted by a position-dependent offset before nearest-colour
    matching. Pixels do not interact, so the scan equals a pointwise map. */
module OrderedDither {
  import opened JsText
  import opened Pixels
  import opened ColorMatch
  import opened PaletteMap

  /** The 8 by 8 table used for the 'ordered' method. */
  const Bayer8: seq<seq<int>> := [
    [0, 48, 12, 60, 3, 51, 15, 63],
    [32, 16, 44, 28, 35, 19, 47, 31],
    [8, 56, 4, 52, 11, 59, 7, 55],
    [40, 24, 36, 20, 43, 27, 39, 23],
    [2, 50, 14, 62, 1, 49, 13, 61],
    [34, 18, 46, 30, 33, 17, 45, 29],
    [10, 58, 6, 54, 9, 57, 5, 53],
    [42, 26, 38, 22, 41, 25, 37, 21]]

  /** The table used for '4x4 bayer'. */
  const Bayer4: seq<seq<int>> := [[0, 8, 2, 10], [12, 4, 14, 6], [3, 11, 1, 9], [15, 7, 13, 5]]

  /** The table used for '2x2 bayer'. */
  const Bayer2: seq<seq<int>> := [[0, 2], [3, 1]]

  /** A square table whose entries are ranks 0 .. n*n - 1. */
  ghost predicate IsThresholdMatrix(m: seq<seq<int>>) {
    && |m| > 0
    && (forall i :: 0 <= i < |m| ==> |m[i]| == |m|)
    && (forall i, j :: 0 <= i < |m| && 0 <= j < |m[i]| ==> 0 <= m[i][j] < |m| * |m|)
  }

  lemma BayerTablesAreThresholdMatrices()
    ensures IsThresholdMatrix(Bayer2) && IsThresholdMatrix(Bayer4) && IsThresholdMatrix(Bayer8)
  {
  }

  /** `threshold` of the pixel at column `x`, row `y`. */
  function Threshold(m: seq<seq<int>>, x: nat, y: nat): (t: real)
    requires IsThresholdMatrix(m)
    ensures 0.0 < t < 255.0
  {
    var n := |m|;
    var v := m[y % n][x % n];
    ThresholdBounds(v, n * n);
    ((v as real + 0.5) / (n * n) as real) * 255.0
  }

  lemma ThresholdBounds(v: int, d: int)
    requires 0 <= v < d
    ensures 0.0 < ((v as real + 0.5) / d as real) * 255.0 < 255.0
  {
    DivBelowOne(v as real + 0.5, d as real);
  }

  lemma DivBelowOne(a: real, d: real)
    requires 0.0 < a < d
    ensures 0.0 < a / d < 1.0
  {
    var q := a / d;
    assert q * d == a;
    if q <= 0.0 { NonPositiveTimesPositive(q, d); }
    if q >= 1.0 { AtLeastOneTimes(q, d); }
  }

  lemma NonPositiveTimesPositive(q: real, d: real)
    requires q <= 0.0 && d > 0.0
    ensures q * d <= 0.0
  {
  }

  lemma AtLeastOneTimes(q: real, d: real)
    requires q >= 1.0 && d > 0.0
    ensures q * d >= d
  {
    assert q * d == d + (q - 1.0) * d;
  }

  /** `adjustedColor`: the pixel shifted by `(threshold - 127.5) * strength`
      on all three channels. */
  function Adjusted(c: Rgb, threshold: real, strength: real): (a: Color)
    ensures a.r - c.r as real == a.g - c.g as real == a.b - c.b as real
  {
    var off := (threshold - 127.5) * strength;
    Color(c.r as real + off, c.g as real + off, c.b as real + off)
  }

  /** With strength 0 the offset vanishes. */
  lemma AdjustedZeroStrength(c: Rgb, threshold: real)
    ensures Adjusted(c, threshold, 0.0) == ToColor(c)
  {
  }

  /** The colour the scan writes into pixel `p` of a `w`-wide image. */
  function OrderedPixel(data: seq<Byte>, p: nat, w: nat, strength: real, palette: seq<Rgb>, m: seq<seq<int>>): (c: Rgb)
    requires 4 * p + 3 < |data| && w > 0 && |palette| > 0 && IsThresholdMatrix(m)
    ensures c in palette
  {
    FindClosestPaletteColor(Adjusted(PixelRgb(data, p), Threshold(m, p % w, p / w), strength), palette)
  }

  lemma OrderedPixelZeroStrength(data: seq<Byte>, p: nat, w: nat, palette: seq<Rgb>, m: seq<seq<int>>)
    requires 4 * p + 3 < |data| && w > 0 && |palette| > 0 && IsThresholdMatrix(m)
    ensures OrderedPixel(data, p, w, 0.0, palette, m) == FindClosestPaletteColor(PixelColor(data, p), palette)
  {
    AdjustedZeroStrength(PixelRgb(data, p), Threshold(m, p % w, p / w));
  }

  /** The scan from pixel `p` on; each step reads only its own pixel. */
  function OrderedFrom(data: seq<Byte>, p: nat, w: nat, h: nat, strength: real, palette: seq<Rgb>, m: seq<seq<int>>): (out: seq<Byte>)
    requires IsImage(data, w, h) && p <= w * h && |palette| > 0 && IsThresholdMatrix(m)
    ensures |out| == |data|
    decreases w * h - p
  {
    if p == w * h then data
    else
      RowMajorInRange(p, w, h);
      OrderedFrom(WritePixel(data, p, OrderedPixel(data, p, w, strength, palette, m)), p + 1, w, h, strength, palette, m)
  }

  /** `orderedDithering(imageData, width, height, strength, paletteColors, bayerMatrix)`. */
  function OrderedDithering(data: seq<Byte>, w: nat, h: nat, strength: real, palette: seq<Rgb>, m: seq<seq<int>>): (out: seq<Byte>)
    requires IsImage(data, w, h) && |palette| > 0 && IsThresholdMatrix(m)
    ensures |out| == |data|
  {
    OrderedFrom(data, 0, w, h, strength, palette, m)
  }

  /** The scan never changes an alpha byte. */
  lemma {:induction false} OrderedFromKeepsAlpha(data: seq<Byte>, p: nat, w: nat, h: nat, strength: real, palette: seq<Rgb>, m: seq<seq<int>>)
    requires IsImage(data, w, h) && p <= w * h && |palette| > 0 && IsThresholdMatrix(m)
    ensures SameAlpha(data, OrderedFrom(data, p, w, h, strength, palette, m))
    decreases w * h - p
  {
    if p < w * h {
      RowMajorInRange(p, w, h);
      var next := WritePixel(data, p, OrderedPixel(data, p, w, strength, palette, m));
      WritePixelOthers(data, p, OrderedPixel(data, p, w, strength, palette, m));
      OrderedFromKeepsAlpha(next, p + 1, w, h, strength, palette, m);
    }
  }

  /** The scan from `p` on leaves the pixels before `p` alone. */
  lemma {:induction false} OrderedFromKeepsEarlier(data: seq<Byte>, p: nat, w: nat, h: nat, strength: real, palette: seq<Rgb>, m: seq<seq<int>>)
    requires IsImage(data, w, h) && p <= w * h && |palette| > 0 && IsThresholdMatrix(m)
    ensures forall q :: 0 <= q < p ==> PixelRgb(OrderedFrom(data, p, w, h, strength, palette, m), q) == PixelRgb(data, q)
    decreases w * h - p
  {
    if p < w * h {
      RowMajorInRange(p, w, h);
      var next := WritePixel(data, p, OrderedPixel(data, p, w, strength, palette, m));
      WritePixelOthers(data, p, OrderedPixel(data, p, w, strength, palette, m));
      OrderedFromKeepsEarlier(next, p + 1, w, h, strength, palette, m);
    }
  }

  /** The scan from `p` on maps every pixel at or after `p` by its own colour
      and position alone. */
  lemma {:induction false} OrderedFromPointwise(data: seq<Byte>, p: nat, w: nat, h: nat, strength: real, palette: seq<Rgb>, m: seq<seq<int>>)
    requires IsImage(data, w, h) && p <= w * h && |palette| > 0 && IsThresholdMatrix(m)
    ensures forall q :: p <= q < w * h ==>
      w > 0 && PixelRgb(OrderedFrom(data, p, w, h, strength, palette, m), q) == OrderedPixel(data, q, w, strength, palette, m)
    decreases w * h - p
  {
    if p < w * h {
      RowMajorInRange(p, w, h);
      var next := WritePixel(data, p, OrderedPixel(data, p, w, strength, palette, m));
      WritePixelOthers(data, p, OrderedPixel(data, p, w, strength, palette, m));
      OrderedFromKeepsEarlier(next, p + 1, w, h, strength, palette, m);
      OrderedFromPointwise(next, p + 1, w, h, strength, palette, m);
      forall q | p < q < w * h
        ensures OrderedPixel(next, q, w, strength, palette, m) == OrderedPixel(data, q, w, strength, palette, m)
      {
        assert PixelRgb(next, q) == PixelRgb(data, q);
      }
    }
  }

  /** Ordered dithering equals its pointwise closed form. */
  lemma OrderedDitheringPointwise(data: seq<Byte>, w: nat, h: nat, strength: real, palette: seq<Rgb>, m: seq<seq<int>>)
    requires IsImage(data, w, h) && |palette| > 0 && IsThresholdMatrix(m)
    ensures var out := OrderedDithering(data, w, h, strength, palette, m);
      && SameAlpha(data, out)
      && forall q :: 0 <= q < w * h ==> w > 0 && PixelRgb(out, q) == OrderedPixel(data, q, w, strength, palette, m)
  {
    OrderedFromKeepsAlpha(data, 0, w, h, strength, palette, m);
    OrderedFromPointwise(data, 0, w, h, strength, palette, m);
  }

  /** Every output pixel is a palette colour. */
  lemma OrderedDitheringInPalette(data: seq<Byte>, w: nat, h: nat, strength: real, palette: seq<Rgb>, m: seq<seq<int>>)
    requires IsImage(data, w, h) && |palette| > 0 && IsThresholdMatrix(m)
    ensures forall q :: 0 <= q < w * h ==> PixelRgb(OrderedDithering(data, w, h, strength, palette, m), q) in palette
  {
    OrderedDitheringPointwise(data, w, h, strength, palette, m);
  }

  /** At strength 0 ordered dithering is plain nearest-colour mapping. */
  lemma OrderedDitheringZeroStrength(data: seq<Byte>, w: nat, h: nat, palette: seq<Rgb>, m: seq<seq<int>>)
    requires IsImage(data, w, h) && |palette| > 0 && IsThresholdMatrix(m)
    ensures OrderedDithering(data, w, h, 0.0, palette, m) == ApplyPalette(data, palette)
  {
    var out := OrderedDithering(data, w, h, 0.0, palette, m);
    var mapped := ApplyPalette(data, palette);
    OrderedDitheringPointwise(data, w, h, 0.0, palette, m);
    ApplyPaletteMembers(data, palette);
    forall q | 0 <= q < |out| / 4 ensures PixelRgb(out, q) == PixelRgb(mapped, q) {
      ApplyPalettePixel(data, palette, q);
      OrderedPixelZeroStrength(data, q, w, palette, m);
    }
    PixelsDetermineBuffer(out, mapped);
  }
}
