/** The colour helpers of the older engine in `sketch.js`: the `closestStep`
    posterise formula, `colorDistanceSquared` and `findClosestColor` over
    byte colours, `rgbToHex`, and the `checkInputValue` clamp. */
module SketchColor {
  import opened Wrappers
  import opened JsText
  import opened Pixels
  import opened ColorMatch

  // -------------------------------------------------------------- posterise

  /** `floor(255 / steps)`: the distance between two posterise levels. */
  function StepSize(steps: int): (d: nat)
    requires steps >= 1
    ensures d * steps <= 255 < (d + 1) * steps
  {
    255 / steps
  }

  /** `closestStep(max, steps, value)`: the level `Math.round(steps * value /
      255)`, scaled by the step size. The `max` argument is never read. */
  function ClosestStep(steps: int, value: int): (r: int)
    requires steps >= 1
    ensures StepSize(steps) > 0 ==> r % StepSize(steps) == 0
    ensures steps > 255 ==> r == 0
  {
    var level := MathRound((steps * value) as real / 255.0);
    if StepSize(steps) > 0 then
      DivModOf(level * StepSize(steps), level, 0, StepSize(steps));
      level * StepSize(steps)
    else
      level * StepSize(steps)
  }

  lemma MulNonNegativeMonotonic(a: int, b: int, d: nat)
    requires a <= b
    ensures a * d <= b * d
  {
  }

  /** A brighter input never posterises to a darker level. */
  lemma ClosestStepMonotonic(steps: int, v1: int, v2: int)
    requires steps >= 1 && v1 <= v2
    ensures ClosestStep(steps, v1) <= ClosestStep(steps, v2)
  {
    MulNonNegativeMonotonic(v1, v2, steps);
    var q1, q2 := (steps * v1) as real / 255.0, (steps * v2) as real / 255.0;
    MathRoundMonotonic(q1, q2);
    MulNonNegativeMonotonic(MathRound(q1), MathRound(q2), StepSize(steps));
  }

  /** A byte posterises to a byte. */
  lemma ClosestStepInRange(steps: int, value: int)
    requires steps >= 1 && 0 <= value <= 255
    ensures 0 <= ClosestStep(steps, value) <= 255
  {
    MulNonNegativeMonotonic(0, value, steps);
    MulNonNegativeMonotonic(value, 255, steps);
    var q := (steps * value) as real / 255.0;
    assert 0.0 <= q <= steps as real;
    MathRoundMonotonic(0.0, q);
    MathRoundMonotonic(q, steps as real);
    MathRoundUnique(0.0, 0);
    MathRoundUnique(steps as real, steps);
    var level := MathRound(q);
    MulNonNegativeMonotonic(0, level, StepSize(steps));
    MulNonNegativeMonotonic(level, steps, StepSize(steps));
  }

  /** With 255 steps every integer is its own level. */
  lemma ClosestStepIdentity(value: int)
    ensures ClosestStep(255, value) == value
  {
    assert (255 * value) as real / 255.0 == value as real;
    MathRoundUnique(value as real, value);
  }

  // --------------------------------------------------------------- matching

  /** `colorDistanceSquared(c1, c2)` on the `levels` of two colours. */
  function ColorDistanceSquared(c1: Rgb, c2: Rgb): (d: int)
    ensures d >= 0
  {
    var dr, dg, db := c1.r - c2.r, c1.g - c2.g, c1.b - c2.b;
    SquareAsReal(dr);
    SquareAsReal(dg);
    SquareAsReal(db);
    dr * dr + dg * dg + db * db
  }

  /** The integer distance of the older engine is the real `colorDistance` of
      the newer one, taken on the same byte colours. */
  lemma ColorDistanceSquaredAsReal(c1: Rgb, c2: Rgb)
    ensures ColorDistanceSquared(c1, c2) as real == ColorDistance(ToColor(c2), ToColor(c1))
  {
    SquareAsReal(c2.r - c1.r);
    SquareAsReal(c2.g - c1.g);
    SquareAsReal(c2.b - c1.b);
  }

  /** Only a colour is at distance zero from itself. */
  lemma ColorDistanceSquaredZero(c1: Rgb, c2: Rgb)
    ensures ColorDistanceSquared(c1, c2) == 0 <==> c1 == c2
  {
    SquareAsReal(c1.r - c2.r);
    SquareAsReal(c1.g - c2.g);
    SquareAsReal(c1.b - c2.b);
  }

  /** Swapping the two colours does not change their distance. */
  lemma ColorDistanceSquaredSymmetric(c1: Rgb, c2: Rgb)
    ensures ColorDistanceSquared(c1, c2) == ColorDistanceSquared(c2, c1)
  {
    SquareAsReal(c2.r - c1.r);
    SquareAsReal(c2.g - c1.g);
    SquareAsReal(c2.b - c1.b);
  }

  /** An integer square is non-negative, zero only for zero, the square of
      the integer as a real, and the same for the negated integer. */
  lemma SquareAsReal(x: int)
    ensures x * x >= 0 && (x * x == 0 <==> x == 0)
    ensures (x * x) as real == (x as real) * (x as real)
    ensures (-x) * (-x) == x * x
  {
    if x != 0 {
      if x > 0 {
        MulAtLeast(x, x);
      } else {
        MulAtLeast(-x, -x);
      }
    }
  }

  /** Squared distance from colour `j` of the array to `target`, the order in
      which the loop of `findClosestColor` passes its arguments. */
  function DistSq(target: Rgb, colors: seq<Rgb>, j: nat): int
    requires j < |colors|
  {
    ColorDistanceSquared(colors[j], target)
  }

  /** Among the first `n` colours, `k` is nearest to `target` and no earlier
      colour is as near. */
  ghost predicate IsFirstClosest(target: Rgb, colors: seq<Rgb>, n: nat, k: nat) {
    && k < n <= |colors|
    && (forall j :: 0 <= j < n ==> DistSq(target, colors, k) <= DistSq(target, colors, j))
    && (forall j :: 0 <= j < k ==> DistSq(target, colors, j) > DistSq(target, colors, k))
  }

  /** The loop of `findClosestColor` from entry `i` on, holding the index of
      the colour kept so far; `None` stands for the initial `minDistSq =
      Infinity`, which the first entry always beats. */
  function ScanClosest(target: Rgb, colors: seq<Rgb>, i: nat, best: Option<nat>): (r: Option<nat>)
    requires i <= |colors|
    requires best.None? <==> i == 0
    requires best.Some? ==> IsFirstClosest(target, colors, i, best.value)
    ensures r.None? <==> |colors| == 0
    ensures r.Some? ==> IsFirstClosest(target, colors, |colors|, r.value)
    decreases |colors| - i
  {
    if i == |colors| then best
    else if best.None? || DistSq(target, colors, i) < DistSq(target, colors, best.value) then
      ScanClosest(target, colors, i + 1, Some(i))
    else
      ScanClosest(target, colors, i + 1, best)
  }

  /** `findClosestColor(targetColor, colorArray)`: an empty array gives
      `undefined` (`None`); otherwise the first colour of least squared
      distance. */
  function FindClosestColor(target: Rgb, colors: seq<Rgb>): (c: Option<Rgb>)
    ensures c.None? <==> |colors| == 0
    ensures c.Some? ==> c.value in colors
    ensures c.Some? ==> forall j :: 0 <= j < |colors| ==>
      ColorDistanceSquared(c.value, target) <= ColorDistanceSquared(colors[j], target)
  {
    match ScanClosest(target, colors, 0, None)
    case None => None
    case Some(k) =>
      assert forall j :: 0 <= j < |colors| ==>
        ColorDistanceSquared(colors[k], target) <= ColorDistanceSquared(colors[j], target) by {
        forall j | 0 <= j < |colors|
          ensures ColorDistanceSquared(colors[k], target) <= ColorDistanceSquared(colors[j], target)
        {
          assert DistSq(target, colors, k) <= DistSq(target, colors, j);
        }
      }
      Some(colors[k])
  }

  /** An entry listed before the first nearest one is strictly farther. */
  lemma EarlierIsFarther(target: Rgb, colors: seq<Rgb>, j: nat, k: nat)
    requires IsFirstClosest(target, colors, |colors|, k) && j < k
    ensures DistSq(target, colors, j) > DistSq(target, colors, k)
  {
  }

  /** Ties go to the colour listed first. */
  lemma FindClosestColorFirstWins(target: Rgb, colors: seq<Rgb>, j: nat)
    requires j < |colors| && FindClosestColor(target, colors) == Some(colors[j])
    ensures exists k :: 0 <= k <= j && colors[k] == colors[j] && IsFirstClosest(target, colors, |colors|, k)
  {
    var k := ScanClosest(target, colors, 0, None).value;
    if k > j {
      EarlierIsFarther(target, colors, j, k);
      assert false;
    }
  }

  /** The first nearest entry is unique. */
  lemma FirstClosestUnique(target: Rgb, colors: seq<Rgb>, k1: nat, k2: nat)
    requires IsFirstClosest(target, colors, |colors|, k1) && IsFirstClosest(target, colors, |colors|, k2)
    ensures k1 == k2
  {
    if k1 < k2 {
      EarlierIsFarther(target, colors, k1, k2);
      assert false;
    } else if k2 < k1 {
      EarlierIsFarther(target, colors, k2, k1);
      assert false;
    }
  }

  /** The older and the newer engine pick the same colour: on byte colours
      `findClosestColor` agrees with `findClosestPaletteColor`. */
  lemma FindClosestColorAgrees(target: Rgb, colors: seq<Rgb>)
    requires |colors| > 0
    ensures FindClosestColor(target, colors) == Some(FindClosestPaletteColor(ToColor(target), colors))
  {
    var k := ScanClosest(target, colors, 0, None).value;
    var m := NearestIndex(ToColor(target), colors);
    assert IsFirstClosest(target, colors, |colors|, m) by {
      forall j | 0 <= j < |colors|
        ensures DistSq(target, colors, j) as real == Dist(ToColor(target), colors, j)
      {
        ColorDistanceSquaredAsReal(colors[j], target);
      }
    }
    FirstClosestUnique(target, colors, k, m);
  }

  // ------------------------------------------------------------------ hex text

  /** `rgbToHex(r, g, b)`: two zero-padded lower-case hex digits per channel. */
  function RgbToHex(r: Byte, g: Byte, b: Byte): (s: string)
    ensures |s| == 6 && AllHex(s)
    ensures forall i :: 0 <= i < 6 ==> IsLowerHexDigit(s[i])
    ensures HexByte(s, 0) == r && HexByte(s, 2) == g && HexByte(s, 4) == b
  {
    var x, y, z := ByteHexString(r), ByteHexString(g), ByteHexString(b);
    HexPairsJoined(x, y, z);
    x + y + z
  }

  /** Three two-digit runs side by side: each stays readable at its place. */
  lemma HexPairsJoined(x: string, y: string, z: string)
    requires |x| == 2 && |y| == 2 && |z| == 2
    requires forall i :: 0 <= i < 2 ==> IsLowerHexDigit(x[i]) && IsLowerHexDigit(y[i]) && IsLowerHexDigit(z[i])
    ensures var s := x + y + z;
      && |s| == 6 && AllHex(s) && (forall i :: 0 <= i < 6 ==> IsLowerHexDigit(s[i]))
      && s[0..2] == x && s[2..4] == y && s[4..6] == z
  {
  }

  /** `hexToRgb` undoes `rgbToHex`, with or without the `#` in front. */
  lemma RgbToHexRoundTrip(r: Byte, g: Byte, b: Byte)
    ensures HexToRgb(RgbToHex(r, g, b)) == Rgb(r, g, b)
    ensures HexToRgb("#" + RgbToHex(r, g, b)) == Rgb(r, g, b)
  {
    HexToRgbSixDigits(RgbToHex(r, g, b));
  }

  /** Different colours are written differently. */
  lemma RgbToHexInjective(c: Rgb, d: Rgb)
    requires RgbToHex(c.r, c.g, c.b) == RgbToHex(d.r, d.g, d.b)
    ensures c == d
  {
    RgbToHexRoundTrip(c.r, c.g, c.b);
    RgbToHexRoundTrip(d.r, d.g, d.b);
  }

  // ------------------------------------------------------------- input clamp

  /** `checkInputValue`: the number typed (`None` when `parseInt` gives NaN)
      against the field's `min` and `max`. The result is the value written
      back, or `None` when the field is left as typed. */
  function CheckInputValue(typed: Option<int>, min: int, max: int): (r: Option<int>)
    ensures r == Some(max) <== typed.Some? && typed.value > max
    ensures r == Some(min) <== typed.Some? && typed.value <= max && typed.value < min
    ensures r.None? <==> typed.None? || min <= typed.value <= max
    ensures r.Some? ==> r == Some(max) || r == Some(min)
  {
    match typed
    case None => None
    case Some(v) =>
      if v > max then Some(max)
      else if v < min then Some(min)
      else None
  }

  /** The value the field shows after the check. */
  function ShownValue(typed: Option<int>, min: int, max: int): (r: Option<int>)
    ensures r.None? <==> typed.None?
    ensures typed.Some? && min <= max ==> min <= r.value <= max
    ensures typed.Some? && min <= typed.value <= max ==> r == typed
  {
    match CheckInputValue(typed, min, max)
    case Some(v) => Some(v)
    case None => typed
  }

  /** With a sensible range every number ends up inside it, unchanged when it
      already was. */
  lemma CheckInputValueClamps(v: int, min: int, max: int)
    requires min <= max
    ensures var s := ShownValue(Some(v), min, max); s.Some? && min <= s.value <= max
    ensures min <= v <= max ==> ShownValue(Some(v), min, max) == Some(v)
  {
  }

  /** Checking the shown value again changes nothing. */
  lemma CheckInputValueIdempotent(typed: Option<int>, min: int, max: int)
    requires min <= max
    ensures CheckInputValue(ShownValue(typed, min, max), min, max).None?
  {
  }
}
