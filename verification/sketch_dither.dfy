/** `ditherImage` of the older engine in `sketch.js`: a mode number picks a
    table; ordered tables bump a posterised channel by one step where the
    channel exceeds the table's threshold, diffusion tables spread each
    channel's posterise error over the 3 by 3 window centred on the pixel.
    Every channel of every pixel is handled in row-major order, and each store
    into the pixel array goes through the Uint8ClampedArray conversion. */
module SketchDither {
  import opened Wrappers
  import opened JsText
  import opened Pixels
  import opened ErrorDiffusion
  import opened SketchColor

  // ------------------------------------------------------------------ tables

  /** A table of `ditherImage` and whether it diffuses error. */
  datatype Table = Table(m: seq<seq<real>>, errorDiffusion: bool)

  const FloydSteinbergMatrix: seq<seq<real>> :=
    [[0.0, 0.0, 7.0 / 16.0], [3.0 / 16.0, 5.0 / 16.0, 1.0 / 16.0]]

  const Bayer4Matrix: seq<seq<real>> :=
    [[1.0, 9.0, 3.0, 11.0], [13.0, 5.0, 15.0, 7.0], [4.0, 12.0, 2.0, 10.0], [16.0, 8.0, 14.0, 6.0]]

  const Bayer8Matrix: seq<seq<real>> := [
    [0.0, 32.0, 8.0, 40.0, 2.0, 34.0, 10.0, 42.0],
    [48.0, 16.0, 56.0, 24.0, 50.0, 18.0, 58.0, 26.0],
    [12.0, 44.0, 4.0, 36.0, 14.0, 46.0, 6.0, 38.0],
    [60.0, 28.0, 52.0, 20.0, 62.0, 30.0, 54.0, 22.0],
    [3.0, 35.0, 11.0, 43.0, 1.0, 33.0, 9.0, 41.0],
    [51.0, 19.0, 59.0, 27.0, 49.0, 17.0, 57.0, 25.0],
    [15.0, 47.0, 7.0, 39.0, 13.0, 45.0, 5.0, 37.0],
    [63.0, 31.0, 55.0, 23.0, 61.0, 29.0, 53.0, 21.0]]

  /** Mode 4, listed as "2x2 Bayer", is a 3 by 3 table. */
  const Bayer2Matrix: seq<seq<real>> := [[3.0, 7.0, 4.0], [6.0, 1.0, 9.0], [2.0, 8.0, 5.0]]

  const JarvisJudiceNinkeMatrix: seq<seq<real>> := [
    [0.0, 0.0, 0.0, 7.0 / 48.0, 5.0 / 48.0],
    [3.0 / 48.0, 5.0 / 48.0, 7.0 / 48.0, 5.0 / 48.0, 3.0 / 48.0],
    [1.0 / 48.0, 3.0 / 48.0, 5.0 / 48.0, 3.0 / 48.0, 1.0 / 48.0]]

  const StuckiMatrix: seq<seq<real>> := [
    [0.0, 0.0, 0.0, 8.0 / 42.0, 4.0 / 42.0],
    [2.0 / 42.0, 4.0 / 42.0, 8.0 / 42.0, 4.0 / 42.0, 2.0 / 42.0],
    [1.0 / 42.0, 2.0 / 42.0, 4.0 / 42.0, 2.0 / 42.0, 1.0 / 42.0]]

  const SierraMatrix: seq<seq<real>> := [
    [0.0, 0.0, 0.0, 5.0 / 32.0, 3.0 / 32.0],
    [2.0 / 32.0, 4.0 / 32.0, 5.0 / 32.0, 4.0 / 32.0, 2.0 / 32.0],
    [0.0, 2.0 / 32.0, 3.0 / 32.0, 2.0 / 32.0, 0.0]]

  const AtkinsonMatrix: seq<seq<real>> := [
    [0.0, 0.0, 1.0 / 8.0, 1.0 / 8.0],
    [1.0 / 8.0, 1.0 / 8.0, 1.0 / 8.0, 0.0],
    [0.0, 1.0 / 8.0, 0.0, 0.0]]

  const BurkesMatrix: seq<seq<real>> := [
    [0.0, 0.0, 0.0, 8.0 / 32.0, 4.0 / 32.0],
    [2.0 / 32.0, 4.0 / 32.0, 8.0 / 32.0, 4.0 / 32.0, 2.0 / 32.0],
    [0.0, 0.0, 0.0, 0.0, 0.0]]

  const TwoRowSierraMatrix: seq<seq<real>> := [
    [0.0, 0.0, 0.0, 4.0 / 16.0, 3.0 / 16.0],
    [1.0 / 16.0, 2.0 / 16.0, 3.0 / 16.0, 2.0 / 16.0, 1.0 / 16.0],
    [0.0, 0.0, 0.0, 0.0, 0.0]]

  const SierraLiteMatrix: seq<seq<real>> := [[0.0, 0.0, 2.0 / 4.0], [1.0 / 4.0, 1.0 / 4.0, 0.0], [0.0, 0.0, 0.0]]

  /** Every row as long as the first. */
  predicate Rectangular(m: seq<seq<real>>) {
    |m| > 0 && forall r :: 0 <= r < |m| ==> |m[r]| == |m[0]|
  }

  /** What the per-pixel loop needs of a table: rows of one length, and a
      square for the ordered rule, which reads `m[x % N][y % N]`. */
  predicate ValidTable(t: Table) {
    Rectangular(t.m) && (!t.errorDiffusion ==> |t.m[0]| == |t.m|)
  }

  /** The mode-to-table dispatch at the top of `ditherImage`: modes 2, 3 and 4
      are ordered, every other number, known or not, diffuses, and anything
      outside 1 .. 11 falls back to Floyd–Steinberg. */
  function TableOf(mode: int): (t: Table)
    ensures ValidTable(t)
    ensures !t.errorDiffusion <==> 2 <= mode <= 4
    ensures (mode < 2 || mode > 11) ==> t == Table(FloydSteinbergMatrix, true)
  {
    if mode == 1 then Table(FloydSteinbergMatrix, true)
    else if mode == 2 then Table(Bayer4Matrix, false)
    else if mode == 3 then Table(Bayer8Matrix, false)
    else if mode == 4 then Table(Bayer2Matrix, false)
    else if mode == 5 then Table(JarvisJudiceNinkeMatrix, true)
    else if mode == 6 then Table(StuckiMatrix, true)
    else if mode == 7 then Table(SierraMatrix, true)
    else if mode == 8 then Table(AtkinsonMatrix, true)
    else if mode == 9 then Table(BurkesMatrix, true)
    else if mode == 10 then Table(TwoRowSierraMatrix, true)
    else if mode == 11 then Table(SierraLiteMatrix, true)
    else Table(FloydSteinbergMatrix, true)
  }

  // ------------------------------------------------------------ one channel

  /** `newValue` for one channel: the posterised value, and for an ordered
      table one more step where `oldValue / 255` exceeds the threshold
      `(m[x % N][y % N] - 1) / N²`. */
  function Quantized(before: Byte, x: nat, y: nat, steps: int, t: Table): (v: int)
    requires steps >= 1 && ValidTable(t)
    ensures ClosestStep(steps, before) <= v <= ClosestStep(steps, before) + StepSize(steps)
    ensures v > ClosestStep(steps, before) ==> !t.errorDiffusion && before as real / 255.0 > Threshold(t, x, y)
    ensures !t.errorDiffusion && before as real / 255.0 > Threshold(t, x, y) && steps <= 255 ==> v > ClosestStep(steps, before)
    ensures StepSize(steps) > 0 ==> v % StepSize(steps) == 0
  {
    var posterised := ClosestStep(steps, before);
    if t.errorDiffusion then posterised
    else if before as real / 255.0 > Threshold(t, x, y) then
      NextLevel(posterised, steps);
      posterised + StepSize(steps)
    else posterised
  }

  /** One step above a level is a level, and a real step when `steps` <= 255. */
  lemma NextLevel(c: int, steps: int)
    requires steps >= 1 && (StepSize(steps) > 0 ==> c % StepSize(steps) == 0)
    ensures StepSize(steps) > 0 ==> (c + StepSize(steps)) % StepSize(steps) == 0
    ensures steps <= 255 ==> StepSize(steps) > 0
  {
    var d := StepSize(steps);
    if d > 0 {
      DivModOf(c + d, c / d + 1, 0, d);
    }
  }

  /** The ordered rule's threshold at column `x`, row `y`: `(m[x % N][y % N] - 1) / N²`. */
  function Threshold(t: Table, x: nat, y: nat): real
    requires ValidTable(t) && !t.errorDiffusion
  {
    var n := |t.m|;
    (t.m[x % n][y % n] - 1.0) / (n * n) as real
  }

  /** The ordered rule tiles the image with the table: moving `N` pixels
      right or down gives the same threshold. */
  lemma ThresholdPeriodic(t: Table, x: nat, y: nat)
    requires ValidTable(t) && !t.errorDiffusion
    ensures Threshold(t, x + |t.m|, y) == Threshold(t, x, y)
    ensures Threshold(t, x, y + |t.m|) == Threshold(t, x, y)
  {
    var n := |t.m|;
    DivModOf(x + n, x / n + 1, x % n, n);
    DivModOf(y + n, y / n + 1, y % n, n);
  }

  /** `pixels[k] += error * weight` for one tap of channel `i`, when the tap
      lands inside the image. */
  function AddError(data: seq<Byte>, x: int, y: int, i: nat, err: real, t: Tap, w: nat, h: nat): (out: seq<Byte>)
    requires IsImage(data, w, h) && i < 4
    ensures |out| == |data|
  {
    var nx, ny := x + t.dx, y + t.dy;
    if InImage(nx, ny, w, h) then
      PixelIndexInRange(nx, ny, w, h);
      var k := 4 * (ny * w + nx) + i;
      data[k := ToUint8Clamp(data[k] as real + err * t.weight)]
    else data
  }

  /** The error taps of one channel, in loop order. */
  function SpreadChannel(data: seq<Byte>, x: int, y: int, i: nat, err: real, taps: seq<Tap>, w: nat, h: nat): (out: seq<Byte>)
    requires IsImage(data, w, h) && i < 4
    ensures |out| == |data|
    decreases |taps|
  {
    if |taps| == 0 then data
    else SpreadChannel(AddError(data, x, y, i, err, taps[0], w, h), x, y, i, err, taps[1..], w, h)
  }

  /** The taps of row `my` of the table, columns `mx` .. 2 that exist. */
  function WindowRow(m: seq<seq<real>>, my: nat, mx: nat): (taps: seq<Tap>)
    requires Rectangular(m) && my < |m|
    ensures forall t :: t in taps ==> mx - 1 <= t.dx <= 1 && t.dy == my - 1 && t.dx + 1 < |m[0]| && t.weight == m[my][t.dx + 1]
    decreases 3 - mx
  {
    if mx >= 3 || mx >= |m[0]| then []
    else [Tap(mx - 1, my - 1, m[my][mx])] + WindowRow(m, my, mx + 1)
  }

  /** Every existing column from `mx` to 2 of row `my` gives a tap. */
  lemma {:induction false} WindowRowComplete(m: seq<seq<real>>, my: nat, mx: nat)
    requires Rectangular(m) && my < |m|
    ensures forall c :: mx <= c < 3 && c < |m[0]| ==> Tap(c - 1, my - 1, m[my][c]) in WindowRow(m, my, mx)
    decreases 3 - mx
  {
    if mx < 3 && mx < |m[0]| {
      WindowRowComplete(m, my, mx + 1);
    }
  }

  /** The taps the two offset loops visit from table row `my` on: offset
      `(dx, dy)` reads `m[dy + 1][dx + 1]` when that row and column exist. */
  function WindowTaps(m: seq<seq<real>>, my: nat): (taps: seq<Tap>)
    requires Rectangular(m)
    ensures forall t :: t in taps ==>
      && -1 <= t.dx <= 1 && my - 1 <= t.dy <= 1
      && t.dy + 1 < |m| && t.dx + 1 < |m[0]| && t.weight == m[t.dy + 1][t.dx + 1]
    decreases 3 - my
  {
    if my >= 3 || my >= |m| then []
    else WindowRow(m, my, 0) + WindowTaps(m, my + 1)
  }

  /** Every existing cell of the first three rows and columns, from row `my`
      on, gives a tap: together with the bounds above, the taps are exactly
      the cells `m[dy + 1][dx + 1]` that exist. */
  lemma {:induction false} WindowTapsComplete(m: seq<seq<real>>, my: nat)
    requires Rectangular(m)
    ensures forall r, c :: my <= r < 3 && r < |m| && 0 <= c < 3 && c < |m[0]| ==> Tap(c - 1, r - 1, m[r][c]) in WindowTaps(m, my)
    decreases 3 - my
  {
    if my < 3 && my < |m| {
      var head, tail := WindowRow(m, my, 0), WindowTaps(m, my + 1);
      WindowRowComplete(m, my, 0);
      WindowTapsComplete(m, my + 1);
      assert WindowTaps(m, my) == head + tail;
      forall r, c | my <= r < 3 && r < |m| && 0 <= c < 3 && c < |m[0]|
        ensures Tap(c - 1, r - 1, m[r][c]) in head + tail
      {
        if r == my {
          assert Tap(c - 1, r - 1, m[r][c]) in head;
        } else {
          assert Tap(c - 1, r - 1, m[r][c]) in tail;
        }
      }
    }
  }

  /** One pass of the channel loop for channel `i` of pixel `p`: store
      `newValue`, then, for a diffusion table, spread `oldValue - newValue`
      (taken before the store clamps it) over the window. */
  function ChannelStep(data: seq<Byte>, p: nat, i: nat, w: nat, h: nat, steps: int, t: Table, taps: seq<Tap>): (out: seq<Byte>)
    requires IsImage(data, w, h) && p < w * h && i < 3 && steps >= 1 && ValidTable(t)
    ensures |out| == |data|
  {
    RowMajorInRange(p, w, h);
    var x, y := p % w, p / w;
    var before := data[4 * p + i];
    var v := Quantized(before, x, y, steps, t);
    var written := data[4 * p + i := ToUint8Clamp(v as real)];
    if t.errorDiffusion then SpreadChannel(written, x, y, i, (before - v) as real, taps, w, h) else written
  }

  /** The three channels of pixel `p`, red first. */
  function PixelStep(data: seq<Byte>, p: nat, w: nat, h: nat, steps: int, t: Table, taps: seq<Tap>): (out: seq<Byte>)
    requires IsImage(data, w, h) && p < w * h && steps >= 1 && ValidTable(t)
    ensures |out| == |data|
  {
    var d0 := ChannelStep(data, p, 0, w, h, steps, t, taps);
    var d1 := ChannelStep(d0, p, 1, w, h, steps, t, taps);
    ChannelStep(d1, p, 2, w, h, steps, t, taps)
  }

  /** The pixel loops from pixel `p` on. */
  function DitherFrom(data: seq<Byte>, p: nat, w: nat, h: nat, steps: int, t: Table, taps: seq<Tap>): (out: seq<Byte>)
    requires IsImage(data, w, h) && p <= w * h && steps >= 1 && ValidTable(t)
    ensures |out| == |data|
    decreases w * h - p
  {
    if p == w * h then data
    else DitherFrom(PixelStep(data, p, w, h, steps, t, taps), p + 1, w, h, steps, t, taps)
  }

  /** `ditherImage(myImage, steps, ditherMatrix)` on the copied pixel array,
      before the final posterise filter. */
  function DitherImage(data: seq<Byte>, w: nat, h: nat, steps: int, mode: int): (out: seq<Byte>)
    requires IsImage(data, w, h) && steps >= 1
    ensures |out| == |data|
  {
    var t := TableOf(mode);
    DitherFrom(data, 0, w, h, steps, t, WindowTaps(t.m, 0))
  }

  // ----------------------------------------------------------- what is read

  /** The diffusion loops read only the first three columns and rows of a
      table, at `m[dy + 1][dx + 1]`: the Floyd–Steinberg table feeds the
      pixel above and to the right, the pixel itself and the one to its
      right, and never the row below. */
  lemma FloydSteinbergWindow()
    ensures var taps := WindowTaps(FloydSteinbergMatrix, 0);
      && Tap(1, -1, 7.0 / 16.0) in taps
      && Tap(0, 0, 5.0 / 16.0) in taps
      && Tap(-1, 0, 3.0 / 16.0) in taps
      && Tap(1, 0, 1.0 / 16.0) in taps
      && forall t :: t in taps ==> t.dy <= 0
  {
    WindowTapsComplete(FloydSteinbergMatrix, 0);
  }

  /** Channel `i` of a pixel in the 3 by 3 window centred on (`x`, `y`). */
  predicate Touched(k: int, x: int, y: int, i: nat, w: nat) {
    w > 0 && k >= 0 && k % 4 == i && -1 <= (k / 4) % w - x <= 1 && -1 <= (k / 4) / w - y <= 1
  }

  /** The byte a tap of channel `i` lands on lies in the window. */
  lemma TapTargetTouched(x: int, y: int, i: nat, t: Tap, w: nat, h: nat)
    requires i < 4 && InImage(x + t.dx, y + t.dy, w, h)
    requires -1 <= t.dx <= 1 && -1 <= t.dy <= 1
    ensures Touched(4 * ((y + t.dy) * w + (x + t.dx)) + i, x, y, i, w)
  {
    var q := (y + t.dy) * w + (x + t.dx);
    assert y + t.dy >= 0;
    assert q >= 0;
    SlotOfPixel(q, i);
    DivModOf(q, y + t.dy, x + t.dx, w);
  }

  /** Spreading writes channel `i` only. */
  lemma {:induction false} SpreadChannelOnlyChannel(data: seq<Byte>, x: int, y: int, i: nat, err: real, taps: seq<Tap>, w: nat, h: nat)
    requires IsImage(data, w, h) && i < 4
    ensures forall k :: 0 <= k < |data| && k % 4 != i ==> SpreadChannel(data, x, y, i, err, taps, w, h)[k] == data[k]
    decreases |taps|
  {
    if |taps| > 0 {
      var t := taps[0];
      var next := AddError(data, x, y, i, err, t, w, h);
      if InImage(x + t.dx, y + t.dy, w, h) {
        PixelIndexInRange(x + t.dx, y + t.dy, w, h);
        SlotOfPixel((y + t.dy) * w + (x + t.dx), i);
      }
      SpreadChannelOnlyChannel(next, x, y, i, err, taps[1..], w, h);
    }
  }

  /** Taps at most one step away write only inside the 3 by 3 window. */
  lemma {:induction false} SpreadChannelInWindow(data: seq<Byte>, x: int, y: int, i: nat, err: real, taps: seq<Tap>, w: nat, h: nat)
    requires IsImage(data, w, h) && i < 4
    requires forall t :: t in taps ==> -1 <= t.dx <= 1 && -1 <= t.dy <= 1
    ensures forall k :: 0 <= k < |data| && !Touched(k, x, y, i, w) ==> SpreadChannel(data, x, y, i, err, taps, w, h)[k] == data[k]
    decreases |taps|
  {
    if |taps| > 0 {
      var t := taps[0];
      var next := AddError(data, x, y, i, err, t, w, h);
      if InImage(x + t.dx, y + t.dy, w, h) {
        TapTargetTouched(x, y, i, t, w, h);
      }
      assert forall t' :: t' in taps[1..] ==> t' in taps;
      SpreadChannelInWindow(next, x, y, i, err, taps[1..], w, h);
    }
  }

  /** Forward taps from a pixel inside the image never write a byte of that
      pixel or of any pixel before it. */
  lemma {:induction false} SpreadChannelKeepsEarlier(data: seq<Byte>, x: int, y: int, i: nat, err: real, taps: seq<Tap>, w: nat, h: nat)
    requires IsImage(data, w, h) && i < 4 && InImage(x, y, w, h)
    requires forall t :: t in taps ==> Forward(t)
    ensures forall k :: 0 <= k < 4 * (y * w + x + 1) && k < |data| ==> SpreadChannel(data, x, y, i, err, taps, w, h)[k] == data[k]
    decreases |taps|
  {
    if |taps| > 0 {
      var t := taps[0];
      var next := AddError(data, x, y, i, err, t, w, h);
      if InImage(x + t.dx, y + t.dy, w, h) {
        ForwardTargetLater(x, y, w, h, t);
      }
      assert forall t' :: t' in taps[1..] ==> t' in taps;
      SpreadChannelKeepsEarlier(next, x, y, i, err, taps[1..], w, h);
    }
  }

  // -------------------------------------------------------- what is written

  /** A channel step never writes an alpha byte, nor any other channel. */
  lemma ChannelStepOnlyChannel(data: seq<Byte>, p: nat, i: nat, w: nat, h: nat, steps: int, t: Table, taps: seq<Tap>)
    requires IsImage(data, w, h) && p < w * h && i < 3 && steps >= 1 && ValidTable(t)
    ensures forall k :: 0 <= k < |data| && k % 4 != i ==> ChannelStep(data, p, i, w, h, steps, t, taps)[k] == data[k]
  {
    RowMajorInRange(p, w, h);
    SlotOfPixel(p, i);
    var before := data[4 * p + i];
    var v := Quantized(before, p % w, p / w, steps, t);
    var written := data[4 * p + i := ToUint8Clamp(v as real)];
    SpreadChannelOnlyChannel(written, p % w, p / w, i, (before - v) as real, taps, w, h);
  }

  /** With the taps of the window loops, a channel step writes only channel
      `i` of the pixels in the 3 by 3 window centred on pixel `p`. */
  lemma ChannelStepInWindow(data: seq<Byte>, p: nat, i: nat, w: nat, h: nat, steps: int, t: Table)
    requires IsImage(data, w, h) && p < w * h && i < 3 && steps >= 1 && ValidTable(t)
    ensures forall k :: 0 <= k < |data| && !Touched(k, p % w, p / w, i, w) ==>
      ChannelStep(data, p, i, w, h, steps, t, WindowTaps(t.m, 0))[k] == data[k]
  {
    NearTapsInWindow(data, p, i, w, h, steps, t, WindowTaps(t.m, 0));
  }

  /** The same for any taps at most one step away. */
  lemma NearTapsInWindow(data: seq<Byte>, p: nat, i: nat, w: nat, h: nat, steps: int, t: Table, taps: seq<Tap>)
    requires IsImage(data, w, h) && p < w * h && i < 3 && steps >= 1 && ValidTable(t)
    requires forall tap :: tap in taps ==> -1 <= tap.dx <= 1 && -1 <= tap.dy <= 1
    ensures forall k :: 0 <= k < |data| && !Touched(k, p % w, p / w, i, w) ==>
      ChannelStep(data, p, i, w, h, steps, t, taps)[k] == data[k]
  {
    RowMajorInRange(p, w, h);
    var x, y := p % w, p / w;
    OwnByteTouched(p, i, w);
    var before := data[4 * p + i];
    var v := Quantized(before, x, y, steps, t);
    var written := data[4 * p + i := ToUint8Clamp(v as real)];
    SpreadChannelInWindow(written, x, y, i, (before - v) as real, taps, w, h);
  }

  /** A pixel's own byte lies in its window. */
  lemma OwnByteTouched(p: nat, i: nat, w: nat)
    requires w > 0 && i < 4
    ensures Touched(4 * p + i, p % w, p / w, i, w)
  {
    SlotOfPixel(p, i);
  }

  /** The byte a channel step stores for channel `i` of pixel `p`. */
  function NewByte(data: seq<Byte>, p: nat, i: nat, w: nat, h: nat, steps: int, t: Table): Byte
    requires IsImage(data, w, h) && p < w * h && i < 3 && steps >= 1 && ValidTable(t)
  {
    RowMajorInRange(p, w, h);
    StoredValue(data[4 * p + i], p, w, steps, t)
  }

  /** What the store of `newValue` leaves in a colour byte that held `b`, in
      pixel `q` of a `w`-wide image. */
  function StoredValue(b: Byte, q: nat, w: nat, steps: int, t: Table): Byte
    requires w > 0 && steps >= 1 && ValidTable(t)
  {
    ToUint8Clamp(Quantized(b, q % w, q / w, steps, t) as real)
  }

  /** The taps can only reach later pixels, or the table does not use them. */
  predicate Causal(t: Table, taps: seq<Tap>) {
    !t.errorDiffusion || forall tap :: tap in taps ==> Forward(tap)
  }

  /** With forward taps a channel step stores the channel's new value and
      touches nothing at or before pixel `p` besides. */
  lemma ChannelStepKeepsEarlier(data: seq<Byte>, p: nat, i: nat, w: nat, h: nat, steps: int, t: Table, taps: seq<Tap>)
    requires IsImage(data, w, h) && p < w * h && i < 3 && steps >= 1 && ValidTable(t) && Causal(t, taps)
    ensures ChannelStep(data, p, i, w, h, steps, t, taps)[4 * p + i] == NewByte(data, p, i, w, h, steps, t)
    ensures forall k :: 0 <= k < 4 * (p + 1) && k < |data| && k != 4 * p + i ==> ChannelStep(data, p, i, w, h, steps, t, taps)[k] == data[k]
  {
    RowMajorInRange(p, w, h);
    var x, y := p % w, p / w;
    assert y * w + x == p;
    var before := data[4 * p + i];
    var v := Quantized(before, x, y, steps, t);
    var written := data[4 * p + i := ToUint8Clamp(v as real)];
    if t.errorDiffusion {
      SpreadChannelKeepsEarlier(written, x, y, i, (before - v) as real, taps, w, h);
    }
  }

  /** With an ordered table a channel step stores into its own byte and
      nothing else. */
  lemma OrderedChannelStep(data: seq<Byte>, p: nat, i: nat, w: nat, h: nat, steps: int, t: Table, taps: seq<Tap>)
    requires IsImage(data, w, h) && p < w * h && i < 3 && steps >= 1 && ValidTable(t) && !t.errorDiffusion
    ensures ChannelStep(data, p, i, w, h, steps, t, taps) == data[4 * p + i := NewByte(data, p, i, w, h, steps, t)]
  {
  }

  // ------------------------------------------------------------ whole scans

  /** A pixel step stores the three new channel values, each computed from the
      buffer as the earlier channels left it, and with causal taps leaves
      the alpha byte and every earlier pixel alone. */
  lemma PixelStepEffect(data: seq<Byte>, p: nat, w: nat, h: nat, steps: int, t: Table, taps: seq<Tap>)
    requires IsImage(data, w, h) && p < w * h && steps >= 1 && ValidTable(t) && Causal(t, taps)
    ensures var d0 := ChannelStep(data, p, 0, w, h, steps, t, taps);
      var d1 := ChannelStep(d0, p, 1, w, h, steps, t, taps);
      var out := PixelStep(data, p, w, h, steps, t, taps);
      && out[4 * p] == NewByte(data, p, 0, w, h, steps, t)
      && out[4 * p + 1] == NewByte(d0, p, 1, w, h, steps, t)
      && out[4 * p + 2] == NewByte(d1, p, 2, w, h, steps, t)
      && out[4 * p + 3] == data[4 * p + 3]
  {
    var d0 := ChannelStep(data, p, 0, w, h, steps, t, taps);
    var d1 := ChannelStep(d0, p, 1, w, h, steps, t, taps);
    ChannelStepKeepsEarlier(data, p, 0, w, h, steps, t, taps);
    ChannelStepKeepsEarlier(d0, p, 1, w, h, steps, t, taps);
    ChannelStepKeepsEarlier(d1, p, 2, w, h, steps, t, taps);
  }

  /** With causal taps a pixel step leaves every earlier pixel alone. */
  lemma PixelStepKeepsEarlier(data: seq<Byte>, p: nat, w: nat, h: nat, steps: int, t: Table, taps: seq<Tap>)
    requires IsImage(data, w, h) && p < w * h && steps >= 1 && ValidTable(t) && Causal(t, taps)
    ensures forall k :: 0 <= k < 4 * p ==> PixelStep(data, p, w, h, steps, t, taps)[k] == data[k]
  {
    var d0 := ChannelStep(data, p, 0, w, h, steps, t, taps);
    var d1 := ChannelStep(d0, p, 1, w, h, steps, t, taps);
    ChannelStepKeepsEarlier(data, p, 0, w, h, steps, t, taps);
    ChannelStepKeepsEarlier(d0, p, 1, w, h, steps, t, taps);
    ChannelStepKeepsEarlier(d1, p, 2, w, h, steps, t, taps);
  }

  /** With causal taps, once the scan has passed a pixel that pixel is final. */
  lemma {:induction false} DitherFromKeepsEarlier(data: seq<Byte>, p: nat, w: nat, h: nat, steps: int, t: Table, taps: seq<Tap>)
    requires IsImage(data, w, h) && p <= w * h && steps >= 1 && ValidTable(t) && Causal(t, taps)
    ensures forall k :: 0 <= k < 4 * p ==> DitherFrom(data, p, w, h, steps, t, taps)[k] == data[k]
    decreases w * h - p
  {
    if p < w * h {
      var next := PixelStep(data, p, w, h, steps, t, taps);
      PixelStepKeepsEarlier(data, p, w, h, steps, t, taps);
      DitherFromKeepsEarlier(next, p + 1, w, h, steps, t, taps);
    }
  }

  /** Whatever the taps, the scan never changes an alpha byte. */
  lemma {:induction false} DitherFromKeepsAlpha(data: seq<Byte>, p: nat, w: nat, h: nat, steps: int, t: Table, taps: seq<Tap>)
    requires IsImage(data, w, h) && p <= w * h && steps >= 1 && ValidTable(t)
    ensures SameAlpha(data, DitherFrom(data, p, w, h, steps, t, taps))
    decreases w * h - p
  {
    if p < w * h {
      var d0 := ChannelStep(data, p, 0, w, h, steps, t, taps);
      var d1 := ChannelStep(d0, p, 1, w, h, steps, t, taps);
      ChannelStepOnlyChannel(data, p, 0, w, h, steps, t, taps);
      ChannelStepOnlyChannel(d0, p, 1, w, h, steps, t, taps);
      ChannelStepOnlyChannel(d1, p, 2, w, h, steps, t, taps);
      DitherFromKeepsAlpha(PixelStep(data, p, w, h, steps, t, taps), p + 1, w, h, steps, t, taps);
    }
  }

  /** `ditherImage` keeps every alpha byte. */
  lemma DitherImageKeepsAlpha(data: seq<Byte>, w: nat, h: nat, steps: int, mode: int)
    requires IsImage(data, w, h) && steps >= 1
    ensures SameAlpha(data, DitherImage(data, w, h, steps, mode))
  {
    var t := TableOf(mode);
    DitherFromKeepsAlpha(data, 0, w, h, steps, t, WindowTaps(t.m, 0));
  }

  // ------------------------------------------------------- the ordered rule

  /** A brighter channel never gets a lower level at the same position. */
  lemma QuantizedMonotonic(b1: Byte, b2: Byte, x: nat, y: nat, steps: int, t: Table)
    requires steps >= 1 && ValidTable(t) && b1 <= b2
    ensures Quantized(b1, x, y, steps, t) <= Quantized(b2, x, y, steps, t)
  {
    ClosestStepMonotonic(steps, b1, b2);
    if !t.errorDiffusion && b1 as real / 255.0 > Threshold(t, x, y) {
      assert b2 as real / 255.0 >= b1 as real / 255.0;
    }
  }

  /** The tables of modes 2 and 4 start at 1, so their thresholds are never
      negative and a black channel stays black. */
  lemma OrderedBlackStaysBlack(x: nat, y: nat, steps: int, mode: int)
    requires steps >= 1 && (mode == 2 || mode == 4)
    ensures Quantized(0, x, y, steps, TableOf(mode)) == 0
  {
    var t := TableOf(mode);
    var n := |t.m|;
    assert t.m[x % n][y % n] >= 1.0;
    assert Threshold(t, x, y) >= 0.0;
    MathRoundUnique(0.0, 0);
  }

  /** The 8 by 8 table of mode 3 starts at 0, so its threshold at the origin
      is -1/64 and a black channel there gets one step. */
  lemma Bayer8BumpsBlack(steps: int)
    requires steps >= 1
    ensures Quantized(0, 0, 0, steps, TableOf(3)) == StepSize(steps)
  {
    assert Threshold(TableOf(3), 0, 0) == -1.0 / 64.0;
    MathRoundUnique(0.0, 0);
  }

  /** With an ordered table a pixel step stores the three new values, each
      computed from the channel's own byte. */
  lemma OrderedPixelStep(data: seq<Byte>, p: nat, w: nat, h: nat, steps: int, t: Table, taps: seq<Tap>)
    requires IsImage(data, w, h) && p < w * h && steps >= 1 && ValidTable(t) && !t.errorDiffusion
    ensures PixelStep(data, p, w, h, steps, t, taps) ==
      data[4 * p := NewByte(data, p, 0, w, h, steps, t)][4 * p + 1 := NewByte(data, p, 1, w, h, steps, t)][4 * p + 2 := NewByte(data, p, 2, w, h, steps, t)]
  {
    var d0 := ChannelStep(data, p, 0, w, h, steps, t, taps);
    OrderedChannelStep(data, p, 0, w, h, steps, t, taps);
    var d1 := ChannelStep(d0, p, 1, w, h, steps, t, taps);
    OrderedChannelStep(d0, p, 1, w, h, steps, t, taps);
    OrderedChannelStep(d1, p, 2, w, h, steps, t, taps);
  }

  /** With an ordered table a pixel step maps the colour bytes of pixel `p`
      on their own and leaves the later pixels alone. */
  lemma OrderedPixelStepBytes(data: seq<Byte>, p: nat, w: nat, h: nat, steps: int, t: Table, taps: seq<Tap>)
    requires IsImage(data, w, h) && p < w * h && w > 0 && steps >= 1 && ValidTable(t) && !t.errorDiffusion
    ensures forall k :: 4 * p <= k < 4 * (p + 1) && k % 4 != 3 ==>
      PixelStep(data, p, w, h, steps, t, taps)[k] == StoredValue(data[k], k / 4, w, steps, t)
    ensures forall k :: 4 * (p + 1) <= k < |data| ==> PixelStep(data, p, w, h, steps, t, taps)[k] == data[k]
  {
    OrderedPixelStep(data, p, w, h, steps, t, taps);
    forall k | 4 * p <= k < 4 * (p + 1) && k % 4 != 3
      ensures k / 4 == p
    {
      DivModOf(k, p, k - 4 * p, 4);
    }
  }

  /** With an ordered table the scan from pixel `p` on is a pointwise map of
      the colour bytes from `p` on. */
  lemma {:induction false} OrderedFromPointwise(data: seq<Byte>, p: nat, w: nat, h: nat, steps: int, t: Table, taps: seq<Tap>)
    requires IsImage(data, w, h) && p <= w * h && w > 0 && steps >= 1 && ValidTable(t) && !t.errorDiffusion
    ensures forall k :: 4 * p <= k < |data| && k % 4 != 3 ==>
      DitherFrom(data, p, w, h, steps, t, taps)[k] == StoredValue(data[k], k / 4, w, steps, t)
    decreases w * h - p
  {
    if p < w * h {
      OrderedFromPointwise(PixelStep(data, p, w, h, steps, t, taps), p + 1, w, h, steps, t, taps);
      OrderedFromStep(data, p, w, h, steps, t, taps);
    }
  }

  /** One step of the induction: pixel `p`'s own step maps its bytes, and the
      later steps keep them. */
  lemma OrderedFromStep(data: seq<Byte>, p: nat, w: nat, h: nat, steps: int, t: Table, taps: seq<Tap>)
    requires IsImage(data, w, h) && p < w * h && w > 0 && steps >= 1 && ValidTable(t) && !t.errorDiffusion
    requires var next := PixelStep(data, p, w, h, steps, t, taps);
      forall k :: 4 * (p + 1) <= k < |data| && k % 4 != 3 ==>
        DitherFrom(next, p + 1, w, h, steps, t, taps)[k] == StoredValue(next[k], k / 4, w, steps, t)
    ensures forall k :: 4 * p <= k < |data| && k % 4 != 3 ==>
      DitherFrom(data, p, w, h, steps, t, taps)[k] == StoredValue(data[k], k / 4, w, steps, t)
  {
    var next := PixelStep(data, p, w, h, steps, t, taps);
    var out := DitherFrom(next, p + 1, w, h, steps, t, taps);
    OrderedPixelStepBytes(data, p, w, h, steps, t, taps);
    DitherFromKeepsEarlier(next, p + 1, w, h, steps, t, taps);
    PointwiseJoin(data, next, out, p, w, steps, t);
  }

  /** The bytes of pixel `p`, fixed by its own step and kept afterwards, join
      the bytes the later steps map. */
  lemma PointwiseJoin(data: seq<Byte>, next: seq<Byte>, out: seq<Byte>, p: nat, w: nat, steps: int, t: Table)
    requires |next| == |data| == |out| && w > 0 && steps >= 1 && ValidTable(t)
    requires forall k :: 4 * p <= k < 4 * (p + 1) && k < |data| && k % 4 != 3 ==> next[k] == StoredValue(data[k], k / 4, w, steps, t)
    requires forall k :: 4 * (p + 1) <= k < |data| ==> next[k] == data[k]
    requires forall k :: 0 <= k < 4 * (p + 1) && k < |data| ==> out[k] == next[k]
    requires forall k :: 4 * (p + 1) <= k < |data| && k % 4 != 3 ==> out[k] == StoredValue(next[k], k / 4, w, steps, t)
    ensures forall k :: 4 * p <= k < |data| && k % 4 != 3 ==> out[k] == StoredValue(data[k], k / 4, w, steps, t)
  {
  }

  /** `ditherImage` with an ordered table (modes 2, 3 and 4) maps every colour
      byte on its own: the result depends only on that byte, its pixel's
      position, `steps` and the table. */
  lemma OrderedDitherPointwise(data: seq<Byte>, w: nat, h: nat, steps: int, mode: int)
    requires IsImage(data, w, h) && steps >= 1 && 2 <= mode <= 4
    ensures w > 0 ==> forall k :: 0 <= k < |data| && k % 4 != 3 ==>
      DitherImage(data, w, h, steps, mode)[k] == StoredValue(data[k], k / 4, w, steps, TableOf(mode))
  {
    var t := TableOf(mode);
    if w > 0 {
      OrderedFromPointwise(data, 0, w, h, steps, t, WindowTaps(t.m, 0));
    }
  }

  // ------------------------------------------------ the causal kernel (fix)

  /** The column of the first table row that holds the current pixel: the
      middle column, rounded down (column 1 of the 3- and 4-wide tables,
      column 2 of the 5-wide ones). */
  function Anchor(m: seq<seq<real>>): nat
    requires Rectangular(m)
  {
    if |m[0]| == 0 then 0 else (|m[0]| - 1) / 2
  }

  /** The nonzero cells of row `my`, columns `mx` on, as taps: row `dy` of
      the table lies `dy` rows below the pixel, column `c` lies
      `c - Anchor(m)` columns to its right. */
  function KernelRow(m: seq<seq<real>>, my: nat, mx: nat): (taps: seq<Tap>)
    requires Rectangular(m) && my < |m| && mx <= |m[0]|
    ensures forall t :: t in taps ==>
      && t.dy == my && mx <= t.dx + Anchor(m) < |m[0]|
      && t.weight == m[my][t.dx + Anchor(m)] && t.weight != 0.0
    decreases |m[0]| - mx
  {
    if mx == |m[0]| then []
    else (if m[my][mx] == 0.0 then [] else [Tap(mx - Anchor(m), my, m[my][mx])]) + KernelRow(m, my, mx + 1)
  }

  /** Every nonzero cell of row `my` from column `mx` on gives a tap. */
  lemma {:induction false} KernelRowComplete(m: seq<seq<real>>, my: nat, mx: nat)
    requires Rectangular(m) && my < |m| && mx <= |m[0]|
    ensures forall c :: mx <= c < |m[0]| && m[my][c] != 0.0 ==> Tap(c - Anchor(m), my, m[my][c]) in KernelRow(m, my, mx)
    decreases |m[0]| - mx
  {
    if mx < |m[0]| {
      KernelRowComplete(m, my, mx + 1);
    }
  }

  /** The taps of the whole table from row `my` on. */
  function KernelTaps(m: seq<seq<real>>, my: nat): (taps: seq<Tap>)
    requires Rectangular(m) && my <= |m|
    ensures forall t :: t in taps ==>
      && my <= t.dy < |m| && 0 <= t.dx + Anchor(m) < |m[0]|
      && t.weight == m[t.dy][t.dx + Anchor(m)] && t.weight != 0.0
    decreases |m| - my
  {
    if my == |m| then [] else KernelRow(m, my, 0) + KernelTaps(m, my + 1)
  }

  /** Every nonzero cell of the table, from row `my` on, gives a tap: with the
      bounds above, the taps are exactly the table's nonzero cells. */
  lemma {:induction false} KernelTapsComplete(m: seq<seq<real>>, my: nat)
    requires Rectangular(m) && my <= |m|
    ensures forall r, c :: my <= r < |m| && 0 <= c < |m[0]| && m[r][c] != 0.0 ==>
      Tap(c - Anchor(m), r, m[r][c]) in KernelTaps(m, my)
    decreases |m| - my
  {
    if my < |m| {
      KernelRowComplete(m, my, 0);
      KernelTapsComplete(m, my + 1);
    }
  }

  /** The first row is zero up to and including the pixel's own column. */
  predicate CausalKernel(m: seq<seq<real>>) {
    Rectangular(m) && forall c :: 0 <= c <= Anchor(m) && c < |m[0]| ==> m[0][c] == 0.0
  }

  /** The taps of a causal table only reach pixels later in the scan. */
  lemma KernelTapsForward(m: seq<seq<real>>)
    requires CausalKernel(m)
    ensures forall t :: t in KernelTaps(m, 0) ==> Forward(t)
  {
    forall t | t in KernelTaps(m, 0)
      ensures Forward(t)
    {
      if t.dy == 0 && t.dx <= 0 {
        assert m[0][t.dx + Anchor(m)] == 0.0;
      }
    }
  }

  /** Every diffusion table of `ditherImage` is causal once anchored. */
  lemma DiffusionTablesCausal(mode: int)
    requires TableOf(mode).errorDiffusion
    ensures CausalKernel(TableOf(mode).m)
  {
  }

  /** `ditherImage` with each diffusion table anchored on the pixel. */
  function CorrectedDitherImage(data: seq<Byte>, w: nat, h: nat, steps: int, mode: int): (out: seq<Byte>)
    requires IsImage(data, w, h) && steps >= 1
    ensures |out| == |data|
  {
    var t := TableOf(mode);
    DitherFrom(data, 0, w, h, steps, t, KernelTaps(t.m, 0))
  }

  /** One of the posterised levels, a multiple of `floor(255 / steps)`. */
  predicate IsLevel(b: int, steps: int)
    requires steps >= 1
  {
    0 <= b <= 255 && (if StepSize(steps) == 0 then b == 0 else b % StepSize(steps) == 0)
  }

  /** Every colour byte of the pixels before `n` is a level. */
  predicate LevelsBefore(d: seq<Byte>, n: nat, steps: int)
    requires steps >= 1
  {
    forall k :: 0 <= k < 4 * n && k < |d| && k % 4 != 3 ==> IsLevel(d[k], steps)
  }

  /** With a diffusion table a channel step stores a level. */
  lemma NewByteLevel(data: seq<Byte>, p: nat, i: nat, w: nat, h: nat, steps: int, t: Table)
    requires IsImage(data, w, h) && p < w * h && i < 3 && steps >= 1 && ValidTable(t) && t.errorDiffusion
    ensures IsLevel(NewByte(data, p, i, w, h, steps, t), steps)
  {
    RowMajorInRange(p, w, h);
    var v := ClosestStep(steps, data[4 * p + i]);
    ClosestStepInRange(steps, data[4 * p + i]);
    ToUint8ClampOfByte(v);
  }

  /** With a diffusion table and forward taps, every pixel the scan passes is
      left holding levels only. */
  lemma {:induction false} DitherFromLevels(data: seq<Byte>, p: nat, w: nat, h: nat, steps: int, t: Table, taps: seq<Tap>)
    requires IsImage(data, w, h) && p <= w * h && steps >= 1 && ValidTable(t) && t.errorDiffusion
    requires forall tap :: tap in taps ==> Forward(tap)
    requires LevelsBefore(data, p, steps)
    ensures LevelsBefore(DitherFrom(data, p, w, h, steps, t, taps), w * h, steps)
    decreases w * h - p
  {
    if p < w * h {
      PixelStepLevels(data, p, w, h, steps, t, taps);
      DitherFromLevels(PixelStep(data, p, w, h, steps, t, taps), p + 1, w, h, steps, t, taps);
    }
  }

  /** One pixel step of a causal diffusion table extends the posterised
      prefix by that pixel. */
  lemma PixelStepLevels(data: seq<Byte>, p: nat, w: nat, h: nat, steps: int, t: Table, taps: seq<Tap>)
    requires IsImage(data, w, h) && p < w * h && steps >= 1 && ValidTable(t) && t.errorDiffusion
    requires forall tap :: tap in taps ==> Forward(tap)
    requires LevelsBefore(data, p, steps)
    ensures LevelsBefore(PixelStep(data, p, w, h, steps, t, taps), p + 1, steps)
  {
    var d0 := ChannelStep(data, p, 0, w, h, steps, t, taps);
    var d1 := ChannelStep(d0, p, 1, w, h, steps, t, taps);
    var next := PixelStep(data, p, w, h, steps, t, taps);
    PixelStepEffect(data, p, w, h, steps, t, taps);
    PixelStepKeepsEarlier(data, p, w, h, steps, t, taps);
    NewByteLevel(data, p, 0, w, h, steps, t);
    NewByteLevel(d0, p, 1, w, h, steps, t);
    NewByteLevel(d1, p, 2, w, h, steps, t);
    forall k | 0 <= k < 4 * (p + 1) && k < |next| && k % 4 != 3
      ensures IsLevel(next[k], steps)
    {
      if k >= 4 * p {
        DivModOf(k, p, k - 4 * p, 4);
      }
    }
  }

  /** With the kernels anchored on the pixel, every colour byte of a
      diffusion result is one of the `steps` posterised levels, and the alpha
      bytes are the input's. */
  lemma CorrectedDitherLevels(data: seq<Byte>, w: nat, h: nat, steps: int, mode: int)
    requires IsImage(data, w, h) && steps >= 1 && TableOf(mode).errorDiffusion
    ensures forall k :: 0 <= k < |data| && k % 4 != 3 ==> IsLevel(CorrectedDitherImage(data, w, h, steps, mode)[k], steps)
    ensures SameAlpha(data, CorrectedDitherImage(data, w, h, steps, mode))
  {
    var t := TableOf(mode);
    DiffusionTablesCausal(mode);
    KernelTapsForward(t.m);
    DitherFromLevels(data, 0, w, h, steps, t, KernelTaps(t.m, 0));
    DitherFromKeepsAlpha(data, 0, w, h, steps, t, KernelTaps(t.m, 0));
  }

  /** With an ordered table the taps are never used, so the corrected
      `ditherImage` only differs on the diffusion tables. */
  lemma {:induction false} OrderedIgnoresTaps(data: seq<Byte>, p: nat, w: nat, h: nat, steps: int, t: Table, a: seq<Tap>, b: seq<Tap>)
    requires IsImage(data, w, h) && p <= w * h && steps >= 1 && ValidTable(t) && !t.errorDiffusion
    ensures DitherFrom(data, p, w, h, steps, t, a) == DitherFrom(data, p, w, h, steps, t, b)
    decreases w * h - p
  {
    if p < w * h {
      OrderedPixelStep(data, p, w, h, steps, t, a);
      OrderedPixelStep(data, p, w, h, steps, t, b);
      OrderedIgnoresTaps(PixelStep(data, p, w, h, steps, t, a), p + 1, w, h, steps, t, a, b);
    }
  }

  // ------------------------------------------------ the centred window (as written)

  /** A 2 by 2 image, black except for a red value of 100 in pixel 2, the
      first pixel of the second row. */
  const SecondRowRed: seq<Byte> := [0, 0, 0, 0, 0, 0, 0, 0, 100, 0, 0, 0, 0, 0, 0, 0]

  /** The Floyd–Steinberg window in loop order. */
  lemma FloydSteinbergWindowTaps()
    ensures WindowTaps(FloydSteinbergMatrix, 0) ==
      [Tap(-1, -1, 0.0), Tap(0, -1, 0.0), Tap(1, -1, 7.0 / 16.0), Tap(-1, 0, 3.0 / 16.0), Tap(0, 0, 5.0 / 16.0), Tap(1, 0, 1.0 / 16.0)]
  {
  }

  /** As written, the red step of pixel 2 with one level and the
      Floyd–Steinberg table (mode 1) sends 7/16 of its error of 100 to the
      pixel above and to the right, pixel 1, which the scan has already
      finished: its red byte becomes 44, not a level. */
  lemma WindowWritesFinishedPixel()
    ensures SecondRowRed[4] == 0
    ensures ChannelStep(SecondRowRed, 2, 0, 2, 2, 1, TableOf(1), WindowTaps(FloydSteinbergMatrix, 0))[4] == 44
    ensures !IsLevel(44, 1)
  {
    var written := SecondRowRed[8 := 0];
    var head := [Tap(-1, -1, 0.0), Tap(0, -1, 0.0), Tap(1, -1, 7.0 / 16.0)];
    var tail := [Tap(-1, 0, 3.0 / 16.0), Tap(0, 0, 5.0 / 16.0), Tap(1, 0, 1.0 / 16.0)];
    FloydSteinbergWindowTaps();
    assert WindowTaps(FloydSteinbergMatrix, 0) == head + tail;
    assert |written| == 16 && written[0] == 0 && written[4] == 0;
    RedStepSpreads(written);
    SpreadChannelAppend(written, 0, 1, 0, 100.0, head, tail, 2, 2);
    var e := SpreadChannel(written, 0, 1, 0, 100.0, head, 2, 2);
    SpreadHeadReachesPixelOne(written);
    SpreadTailAvoidsPixelOne(e);
  }

  /** The red step of pixel 2 stores 0 and spreads an error of 100. */
  lemma RedStepSpreads(written: seq<Byte>)
    requires written == SecondRowRed[8 := 0]
    ensures ChannelStep(SecondRowRed, 2, 0, 2, 2, 1, TableOf(1), WindowTaps(FloydSteinbergMatrix, 0))
      == SpreadChannel(written, 0, 1, 0, 100.0, WindowTaps(FloydSteinbergMatrix, 0), 2, 2)
  {
    MathRoundUnique(100.0 / 255.0, 0);
    assert Quantized(100, 0, 1, 1, TableOf(1)) == 0;
    ToUint8ClampOfByte(0);
  }

  /** Spreading over two lists of taps is spreading over one, then the other. */
  lemma {:induction false} SpreadChannelAppend(data: seq<Byte>, x: int, y: int, i: nat, err: real, a: seq<Tap>, b: seq<Tap>, w: nat, h: nat)
    requires IsImage(data, w, h) && i < 4
    ensures SpreadChannel(data, x, y, i, err, a + b, w, h) == SpreadChannel(SpreadChannel(data, x, y, i, err, a, w, h), x, y, i, err, b, w, h)
    decreases |a|
  {
    if |a| == 0 {
      assert a + b == b;
    } else {
      assert (a + b)[0] == a[0] && (a + b)[1..] == a[1..] + b;
      SpreadChannelAppend(AddError(data, x, y, i, err, a[0], w, h), x, y, i, err, a[1..], b, w, h);
    }
  }

  /** The first three taps from pixel 2 of a 2 by 2 image: the top-left one
      falls outside, the top one adds nothing to byte 0, the top-right one
      adds 43.75 to byte 4. */
  lemma SpreadHeadReachesPixelOne(d: seq<Byte>)
    requires |d| == 16 && d[0] == 0 && d[4] == 0
    ensures SpreadChannel(d, 0, 1, 0, 100.0, [Tap(-1, -1, 0.0), Tap(0, -1, 0.0), Tap(1, -1, 7.0 / 16.0)], 2, 2)[4] == 44
  {
    var taps := [Tap(-1, -1, 0.0), Tap(0, -1, 0.0), Tap(1, -1, 7.0 / 16.0)];
    var d1 := AddError(d, 0, 1, 0, 100.0, taps[0], 2, 2);
    assert d1 == d;
    var d2 := AddError(d1, 0, 1, 0, 100.0, taps[1], 2, 2);
    assert d2[4] == 0;
    var d3 := AddError(d2, 0, 1, 0, 100.0, taps[2], 2, 2);
    assert d3[4] == ToUint8Clamp(43.75) == 44;
    assert taps[1..][1..][1..] == [];
    assert SpreadChannel(d, 0, 1, 0, 100.0, taps, 2, 2) == d3;
  }

  /** The last three taps from pixel 2 of a 2 by 2 image reach bytes 8 and 12
      only. */
  lemma SpreadTailAvoidsPixelOne(d: seq<Byte>)
    requires |d| == 16
    ensures SpreadChannel(d, 0, 1, 0, 100.0, [Tap(-1, 0, 3.0 / 16.0), Tap(0, 0, 5.0 / 16.0), Tap(1, 0, 1.0 / 16.0)], 2, 2)[4] == d[4]
  {
    var taps := [Tap(-1, 0, 3.0 / 16.0), Tap(0, 0, 5.0 / 16.0), Tap(1, 0, 1.0 / 16.0)];
    SpreadChannelInWindow(d, 0, 1, 0, 100.0, taps, 2, 2);
  }

  // ------------------------------------------------ the posterise guard

  /** The level the final `filter(POSTERIZE, 22 - posterizeAmnt)` uses, as
      written: the guard `posterizeAmnt > 0 || posterizeAmnt <= 20` holds for
      every numeric amount. */
  function PosterizeLevel(amount: int): (level: Option<int>)
    ensures level == Some(22 - amount)
  {
    if amount > 0 || amount <= 20 then Some(22 - amount) else None
  }

  /** As written the filter always runs: the default amount 0 posterises to
      22 levels, and an amount of 30 asks for -8 levels. */
  lemma PosterizeGuardAlwaysHolds(amount: int)
    ensures PosterizeLevel(amount).Some?
    ensures PosterizeLevel(0) == Some(22) && PosterizeLevel(30) == Some(-8)
  {
  }

  /** The guard with `&&`: the filter runs for amounts 1 .. 20 only, with
      2 .. 21 levels. */
  function CorrectedPosterizeLevel(amount: int): (level: Option<int>)
    ensures level.Some? <==> 0 < amount <= 20
    ensures level.Some? ==> 2 <= level.value <= 21 && level.value + amount == 22
  {
    if amount > 0 && amount <= 20 then Some(22 - amount) else None
  }

  /** The corrected guard leaves the default amount 0 unposterised. */
  lemma CorrectedPosterizeOff()
    ensures CorrectedPosterizeLevel(0).None?
  {
  }
}
