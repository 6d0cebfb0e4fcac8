/** `floydSteinbergDithering` and `distributeError` of `image-to-pixel.js`:
    a row-major scan that quantises each pixel after adding the error pushed to
    it by earlier pixels, then pushes its own quantisation error forward.
    The scan is written once over a list of error taps; Floyd–Steinberg is the
    one tap list the engine uses. */
module ErrorDiffusion {
  import opened JsText
  import opened Pixels
  import opened ColorMatch
  import opened PaletteMap

  /** A neighbour receiving part of the error: column and row offset, weight. */
  datatype Tap = Tap(dx: int, dy: int, weight: real)

  /** The four Floyd–Steinberg neighbours, in the order the scan feeds them. */
  const FloydSteinbergTaps: seq<Tap> :=
    [Tap(1, 0, 7.0 / 16.0), Tap(-1, 1, 3.0 / 16.0), Tap(0, 1, 5.0 / 16.0), Tap(1, 1, 1.0 / 16.0)]

  function WeightSum(taps: seq<Tap>): real {
    if |taps| == 0 then 0.0 else taps[0].weight + WeightSum(taps[1..])
  }

  /** The error of a pixel is passed on whole: the weights sum to one. */
  lemma FloydSteinbergWeightsSumToOne()
    ensures WeightSum(FloydSteinbergTaps) == 1.0
  {
    assert FloydSteinbergTaps[1..][1..][1..][1..] == [];
  }

  /** A tap pointing to a pixel the row-major scan has not reached yet. */
  predicate Forward(t: Tap) {
    t.dy > 0 || (t.dy == 0 && t.dx > 0)
  }

  lemma FloydSteinbergForward()
    ensures forall t :: t in FloydSteinbergTaps ==> Forward(t)
  {
  }

  /** A forward tap that stays inside the image lands on a later pixel
      position. */
  lemma ForwardTargetLater(x: int, y: int, w: nat, h: nat, t: Tap)
    requires InImage(x, y, w, h) && InImage(x + t.dx, y + t.dy, w, h) && Forward(t)
    ensures (y + t.dy) * w + (x + t.dx) > y * w + x
  {
    if t.dy > 0 {
      MulAtLeast(t.dy, w);
      assert (y + t.dy) * w == y * w + t.dy * w;
    }
  }

  predicate InImage(x: int, y: int, w: nat, h: nat) {
    0 <= x < w && 0 <= y < h
  }

  /** `distributeError(buffer, x, y, quantError, factor, width, height)`: a
      target outside the image is ignored; otherwise `quantError * factor` is
      added to the three colour slots of that one pixel. */
  function DistributeError(buf: seq<real>, x: int, y: int, qe: Color, factor: real, w: nat, h: nat): (out: seq<real>)
    requires |buf| == 4 * (w * h)
    ensures |out| == |buf|
  {
    if x < 0 || x >= w || y < 0 || y >= h then buf
    else
      PixelIndexInRange(x, y, w, h);
      var i := (y * w + x) * 4;
      buf[i := buf[i] + qe.r * factor][i + 1 := buf[i + 1] + qe.g * factor][i + 2 := buf[i + 2] + qe.b * factor]
  }

  /** What `distributeError` does: nothing for a target outside the image,
      otherwise it adds the scaled error to the three colour slots of pixel
      `y * w + x` and leaves every other slot, its alpha slot included, alone. */
  lemma DistributeErrorEffect(buf: seq<real>, x: int, y: int, qe: Color, factor: real, w: nat, h: nat)
    requires |buf| == 4 * (w * h)
    ensures var out := DistributeError(buf, x, y, qe, factor, w, h);
      && (!InImage(x, y, w, h) ==> out == buf)
      && (InImage(x, y, w, h) ==>
        var p := y * w + x;
        && p < w * h
        && out[4 * p] == buf[4 * p] + qe.r * factor
        && out[4 * p + 1] == buf[4 * p + 1] + qe.g * factor
        && out[4 * p + 2] == buf[4 * p + 2] + qe.b * factor
        && (forall k :: 0 <= k < |buf| && k / 4 != p ==> out[k] == buf[k])
        && out[4 * p + 3] == buf[4 * p + 3])
  {
    if InImage(x, y, w, h) {
      PixelIndexInRange(x, y, w, h);
      var p := y * w + x;
      SlotOfPixel(p, 0); SlotOfPixel(p, 1); SlotOfPixel(p, 2); SlotOfPixel(p, 3);
    }
  }

  /** The error taps of a pixel at (`x`, `y`), fed in list order. */
  function Spread(buf: seq<real>, x: int, y: int, qe: Color, taps: seq<Tap>, w: nat, h: nat): (out: seq<real>)
    requires |buf| == 4 * (w * h)
    ensures |out| == |buf|
    decreases |taps|
  {
    if |taps| == 0 then buf
    else Spread(DistributeError(buf, x + taps[0].dx, y + taps[0].dy, qe, taps[0].weight, w, h), x, y, qe, taps[1..], w, h)
  }

  /** The image buffer and the error buffer during the scan. */
  datatype Scan = Scan(data: seq<Byte>, err: seq<real>)

  predicate ScanOf(s: Scan, w: nat, h: nat) {
    IsImage(s.data, w, h) && |s.err| == |s.data|
  }

  /** Pixel `p` with its pending error added. */
  function Pending(s: Scan, p: nat): (c: Color)
    requires 4 * p + 3 < |s.data| && |s.err| == |s.data|
    ensures s.err[4 * p] == 0.0 && s.err[4 * p + 1] == 0.0 && s.err[4 * p + 2] == 0.0 ==> c == PixelColor(s.data, p)
  {
    Color(s.data[4 * p] as real + s.err[4 * p], s.data[4 * p + 1] as real + s.err[4 * p + 1],
          s.data[4 * p + 2] as real + s.err[4 * p + 2])
  }

  /** `quantError`: what quantisation lost, scaled by the strength. */
  function QuantError(c: Color, n: Rgb, strength: real): (q: Color)
    ensures c == ToColor(n) || strength == 0.0 ==> q.r == 0.0 && q.g == 0.0 && q.b == 0.0
  {
    Color((c.r - n.r as real) * strength, (c.g - n.g as real) * strength, (c.b - n.b as real) * strength)
  }

  /** One iteration of the inner loop, for pixel `p` = `y * width + x`. */
  function DiffuseStep(s: Scan, p: nat, w: nat, h: nat, strength: real, palette: seq<Rgb>, taps: seq<Tap>): (t: Scan)
    requires ScanOf(s, w, h) && p < w * h && |palette| > 0
    ensures ScanOf(t, w, h)
  {
    var c := Pending(s, p);
    var n := FindClosestPaletteColor(c, palette);
    Scan(WritePixel(s.data, p, n), Spread(s.err, p % w, p / w, QuantError(c, n, strength), taps, w, h))
  }

  /** The scan from pixel `p` on. */
  function DiffuseFrom(s: Scan, p: nat, w: nat, h: nat, strength: real, palette: seq<Rgb>, taps: seq<Tap>): (t: Scan)
    requires ScanOf(s, w, h) && p <= w * h && |palette| > 0
    ensures ScanOf(t, w, h)
    decreases w * h - p
  {
    if p == w * h then s
    else DiffuseFrom(DiffuseStep(s, p, w, h, strength, palette, taps), p + 1, w, h, strength, palette, taps)
  }

  function Zeros(n: nat): (z: seq<real>)
    ensures |z| == n && forall k :: 0 <= k < n ==> z[k] == 0.0
  {
    seq(n, _ => 0.0)
  }

  /** `floydSteinbergDithering(imageData, width, height, strength, paletteColors)`
      with a fresh all-zero error buffer. */
  function FloydSteinberg(data: seq<Byte>, w: nat, h: nat, strength: real, palette: seq<Rgb>): (out: seq<Byte>)
    requires IsImage(data, w, h) && |palette| > 0
    ensures |out| == |data|
  {
    DiffuseFrom(Scan(data, Zeros(|data|)), 0, w, h, strength, palette, FloydSteinbergTaps).data
  }

  /** Feeding a target at or after pixel `b` leaves the error of every pixel
      before `b` untouched. */
  lemma DistributeKeepsBelow(buf: seq<real>, x: int, y: int, qe: Color, factor: real, w: nat, h: nat, b: nat)
    requires |buf| == 4 * (w * h)
    requires InImage(x, y, w, h) ==> y * w + x >= b
    ensures forall k :: 0 <= k < 4 * b && k < |buf| ==> DistributeError(buf, x, y, qe, factor, w, h)[k] == buf[k]
  {
    DistributeErrorEffect(buf, x, y, qe, factor, w, h);
    if InImage(x, y, w, h) {
      var out := DistributeError(buf, x, y, qe, factor, w, h);
      forall k | 0 <= k < 4 * b && k < |buf| ensures out[k] == buf[k] {
        assert k / 4 < b;
      }
    }
  }

  lemma ForwardTapKeepsEarlier(buf: seq<real>, x: int, y: int, qe: Color, t: Tap, w: nat, h: nat)
    requires |buf| == 4 * (w * h) && InImage(x, y, w, h) && Forward(t)
    ensures forall k :: 0 <= k < 4 * (y * w + x + 1) && k < |buf| ==>
      DistributeError(buf, x + t.dx, y + t.dy, qe, t.weight, w, h)[k] == buf[k]
  {
    if InImage(x + t.dx, y + t.dy, w, h) {
      ForwardTargetLater(x, y, w, h, t);
    }
    DistributeKeepsBelow(buf, x + t.dx, y + t.dy, qe, t.weight, w, h, y * w + x + 1);
  }

  /** Feeding forward taps of pixel (`x`, `y`) leaves the error of that pixel
      and of every earlier one untouched. */
  lemma {:induction false} SpreadKeepsEarlier(buf: seq<real>, x: int, y: int, qe: Color, taps: seq<Tap>, w: nat, h: nat)
    requires |buf| == 4 * (w * h) && InImage(x, y, w, h)
    requires forall t :: t in taps ==> Forward(t)
    ensures forall k :: 0 <= k < 4 * (y * w + x + 1) && k < |buf| ==> Spread(buf, x, y, qe, taps, w, h)[k] == buf[k]
    decreases |taps|
  {
    if |taps| > 0 {
      var t := taps[0];
      ForwardTapKeepsEarlier(buf, x, y, qe, t, w, h);
      var mid := DistributeError(buf, x + t.dx, y + t.dy, qe, t.weight, w, h);
      assert forall t' :: t' in taps[1..] ==> t' in taps;
      SpreadKeepsEarlier(mid, x, y, qe, taps[1..], w, h);
    }
  }

  lemma ZeroTimes(a: real, f: real)
    requires a == 0.0
    ensures a * f == 0.0
  {
  }

  /** Feeding a zero error changes nothing. */
  lemma DistributeZero(buf: seq<real>, x: int, y: int, qe: Color, factor: real, w: nat, h: nat)
    requires |buf| == 4 * (w * h)
    requires qe.r == 0.0 && qe.g == 0.0 && qe.b == 0.0
    ensures DistributeError(buf, x, y, qe, factor, w, h) == buf
  {
    DistributeErrorEffect(buf, x, y, qe, factor, w, h);
    if InImage(x, y, w, h) {
      var p := y * w + x;
      var out := DistributeError(buf, x, y, qe, factor, w, h);
      ZeroTimes(qe.r, factor);
      ZeroTimes(qe.g, factor);
      ZeroTimes(qe.b, factor);
      forall k | 0 <= k < |buf| ensures out[k] == buf[k] {
        if k / 4 == p {
          assert k == 4 * p + k % 4;
        }
      }
    }
  }

  /** A zero error changes nothing, whatever the weights. */
  lemma {:induction false} SpreadZero(buf: seq<real>, x: int, y: int, qe: Color, taps: seq<Tap>, w: nat, h: nat)
    requires |buf| == 4 * (w * h)
    requires qe.r == 0.0 && qe.g == 0.0 && qe.b == 0.0
    ensures Spread(buf, x, y, qe, taps, w, h) == buf
    decreases |taps|
  {
    if |taps| > 0 {
      DistributeZero(buf, x + taps[0].dx, y + taps[0].dy, qe, taps[0].weight, w, h);
      SpreadZero(buf, x, y, qe, taps[1..], w, h);
    }
  }

  /** Step `p` writes the nearest palette colour to pixel `p`'s value plus its
      pending error into pixel `p` only, and with forward taps sends error
      only to later pixels. */
  lemma DiffuseStepEffect(s: Scan, p: nat, w: nat, h: nat, strength: real, palette: seq<Rgb>, taps: seq<Tap>)
    requires ScanOf(s, w, h) && p < w * h && |palette| > 0
    ensures var t := DiffuseStep(s, p, w, h, strength, palette, taps);
      && PixelRgb(t.data, p) == FindClosestPaletteColor(Pending(s, p), palette)
      && (forall q :: 0 <= q < w * h && q != p ==> PixelRgb(t.data, q) == PixelRgb(s.data, q))
      && SameAlpha(s.data, t.data)
  {
    WritePixelOthers(s.data, p, FindClosestPaletteColor(Pending(s, p), palette));
  }

  lemma DiffuseStepErrorForward(s: Scan, p: nat, w: nat, h: nat, strength: real, palette: seq<Rgb>, taps: seq<Tap>)
    requires ScanOf(s, w, h) && p < w * h && |palette| > 0
    requires forall t :: t in taps ==> Forward(t)
    ensures forall k :: 0 <= k < 4 * p + 4 ==> DiffuseStep(s, p, w, h, strength, palette, taps).err[k] == s.err[k]
  {
    RowMajorInRange(p, w, h);
    var c := Pending(s, p);
    SpreadKeepsEarlier(s.err, p % w, p / w, QuantError(c, FindClosestPaletteColor(c, palette), strength), taps, w, h);
  }

  /** Once the scan has reached pixel `p`, the pending error of `p` and of
      every earlier pixel is final. */
  lemma {:induction false} ErrorFinalWhenRead(s: Scan, p: nat, w: nat, h: nat, strength: real, palette: seq<Rgb>, taps: seq<Tap>)
    requires ScanOf(s, w, h) && p < w * h && |palette| > 0
    requires forall t :: t in taps ==> Forward(t)
    ensures forall k :: 0 <= k < 4 * p + 4 ==> DiffuseFrom(s, p, w, h, strength, palette, taps).err[k] == s.err[k]
    decreases w * h - p
  {
    var t := DiffuseStep(s, p, w, h, strength, palette, taps);
    DiffuseStepErrorForward(s, p, w, h, strength, palette, taps);
    if p + 1 < w * h {
      ErrorFinalWhenRead(t, p + 1, w, h, strength, palette, taps);
    }
  }

  /** The scan never changes an alpha byte. */
  lemma {:induction false} DiffuseFromKeepsAlpha(s: Scan, p: nat, w: nat, h: nat, strength: real, palette: seq<Rgb>, taps: seq<Tap>)
    requires ScanOf(s, w, h) && p <= w * h && |palette| > 0
    ensures SameAlpha(s.data, DiffuseFrom(s, p, w, h, strength, palette, taps).data)
    decreases w * h - p
  {
    if p < w * h {
      var t := DiffuseStep(s, p, w, h, strength, palette, taps);
      DiffuseStepEffect(s, p, w, h, strength, palette, taps);
      DiffuseFromKeepsAlpha(t, p + 1, w, h, strength, palette, taps);
    }
  }

  /** The first `n` pixels hold palette colours. */
  predicate InPaletteUpTo(data: seq<Byte>, n: nat, palette: seq<Rgb>)
    requires 4 * n <= |data|
  {
    forall q :: 0 <= q < n ==> PixelRgb(data, q) in palette
  }

  /** Every pixel the scan has passed holds a palette colour. */
  lemma {:induction false} DiffuseFromInPalette(s: Scan, p: nat, w: nat, h: nat, strength: real, palette: seq<Rgb>, taps: seq<Tap>)
    requires ScanOf(s, w, h) && p <= w * h && |palette| > 0
    requires InPaletteUpTo(s.data, p, palette)
    ensures InPaletteUpTo(DiffuseFrom(s, p, w, h, strength, palette, taps).data, w * h, palette)
    decreases w * h - p
  {
    if p < w * h {
      var t := DiffuseStep(s, p, w, h, strength, palette, taps);
      DiffuseStepEffect(s, p, w, h, strength, palette, taps);
      DiffuseFromInPalette(t, p + 1, w, h, strength, palette, taps);
    }
  }

  /** A pixel the scan has passed is never written again: the output pixel
      is the one its own step chose. */
  lemma {:induction false} DiffuseFromKeepsEarlierPixels(s: Scan, p: nat, w: nat, h: nat, strength: real, palette: seq<Rgb>, taps: seq<Tap>)
    requires ScanOf(s, w, h) && p <= w * h && |palette| > 0
    ensures forall q :: 0 <= q < p ==> PixelRgb(DiffuseFrom(s, p, w, h, strength, palette, taps).data, q) == PixelRgb(s.data, q)
    decreases w * h - p
  {
    if p < w * h {
      var t := DiffuseStep(s, p, w, h, strength, palette, taps);
      DiffuseStepEffect(s, p, w, h, strength, palette, taps);
      DiffuseFromKeepsEarlierPixels(t, p + 1, w, h, strength, palette, taps);
    }
  }

  /** Floyd–Steinberg output uses only palette colours and keeps the alpha
      bytes of its input. */
  lemma FloydSteinbergInPalette(data: seq<Byte>, w: nat, h: nat, strength: real, palette: seq<Rgb>)
    requires IsImage(data, w, h) && |palette| > 0
    ensures SameAlpha(data, FloydSteinberg(data, w, h, strength, palette))
    ensures forall q :: 0 <= q < w * h ==> PixelRgb(FloydSteinberg(data, w, h, strength, palette), q) in palette
  {
    DiffuseFromKeepsAlpha(Scan(data, Zeros(|data|)), 0, w, h, strength, palette, FloydSteinbergTaps);
    DiffuseFromInPalette(Scan(data, Zeros(|data|)), 0, w, h, strength, palette, FloydSteinbergTaps);
  }

  /** The error pixel `p` reads in Floyd–Steinberg is never changed afterwards. */
  lemma FloydSteinbergErrorFinal(s: Scan, p: nat, w: nat, h: nat, strength: real, palette: seq<Rgb>)
    requires ScanOf(s, w, h) && p < w * h && |palette| > 0
    ensures forall k :: 0 <= k < 4 * p + 4 ==> DiffuseFrom(s, p, w, h, strength, palette, FloydSteinbergTaps).err[k] == s.err[k]
  {
    FloydSteinbergForward();
    ErrorFinalWhenRead(s, p, w, h, strength, palette, FloydSteinbergTaps);
  }

  /** With strength 0 no error is carried: pixels before `p` are mapped as
      `applyPalette` maps them, later pixels are untouched. */
  predicate PlainlyMappedUpTo(data: seq<Byte>, s: Scan, p: nat, palette: seq<Rgb>)
    requires |data| % 4 == 0 && |palette| > 0 && |s.data| == |data| && p <= |data| / 4
  {
    && SameAlpha(data, s.data)
    && (forall k :: 0 <= k < |s.err| ==> s.err[k] == 0.0)
    && (forall q :: 0 <= q < p ==> PixelRgb(s.data, q) == FindClosestPaletteColor(PixelColor(data, q), palette))
    && (forall q :: p <= q < |data| / 4 ==> PixelRgb(s.data, q) == PixelRgb(data, q))
  }

  lemma {:induction false} DiffuseFromZeroStrength(data: seq<Byte>, s: Scan, p: nat, w: nat, h: nat, palette: seq<Rgb>, taps: seq<Tap>)
    requires IsImage(data, w, h) && ScanOf(s, w, h) && p <= w * h && |palette| > 0
    requires PlainlyMappedUpTo(data, s, p, palette)
    ensures PlainlyMappedUpTo(data, DiffuseFrom(s, p, w, h, 0.0, palette, taps), w * h, palette)
    decreases w * h - p
  {
    if p < w * h {
      var c := Pending(s, p);
      assert PixelRgb(s.data, p) == PixelRgb(data, p);
      assert c == PixelColor(data, p);
      var n := FindClosestPaletteColor(c, palette);
      var t := DiffuseStep(s, p, w, h, 0.0, palette, taps);
      DiffuseStepEffect(s, p, w, h, 0.0, palette, taps);
      SpreadZero(s.err, p % w, p / w, QuantError(c, n, 0.0), taps, w, h);
      DiffuseFromZeroStrength(data, t, p + 1, w, h, palette, taps);
    }
  }

  /** At strength 0 Floyd–Steinberg is plain nearest-colour mapping. */
  lemma FloydSteinbergZeroStrength(data: seq<Byte>, w: nat, h: nat, palette: seq<Rgb>)
    requires IsImage(data, w, h) && |palette| > 0
    ensures FloydSteinberg(data, w, h, 0.0, palette) == ApplyPalette(data, palette)
  {
    ImageWholePixels(data, w, h);
    var s0 := Scan(data, Zeros(|data|));
    DiffuseFromZeroStrength(data, s0, 0, w, h, palette, FloydSteinbergTaps);
    PlainlyMappedIsApplyPalette(data, DiffuseFrom(s0, 0, w, h, 0.0, palette, FloydSteinbergTaps), palette);
  }

  /** A buffer mapped pixel by pixel to the nearest colours is `applyPalette`'s. */
  lemma PlainlyMappedIsApplyPalette(data: seq<Byte>, s: Scan, palette: seq<Rgb>)
    requires |data| % 4 == 0 && |palette| > 0 && |s.data| == |data|
    requires PlainlyMappedUpTo(data, s, |data| / 4, palette)
    ensures s.data == ApplyPalette(data, palette)
  {
    var mapped := ApplyPalette(data, palette);
    assert SameAlpha(s.data, mapped);
    forall q | 0 <= q < |data| / 4 ensures PixelRgb(s.data, q) == PixelRgb(mapped, q) {
      ApplyPalettePixel(data, palette, q);
    }
    PixelsDetermineBuffer(s.data, mapped);
  }
}
