/** Nearest-palette-colour lookup and hex decoding of `image-to-pixel.js`
    (`colorDistance`, `findClosestPaletteColor`, `hexToRgb`). */
module ColorMatch {
  import opened Wrappers
  import opened JsText
  import opened Pixels

  /** Real product; squares are written `Mul(x, x)` so that the facts about
      them below are stated once, in the lemmas that follow. */
  function Mul(a: real, b: real): real {
    a * b
  }

  lemma MulPositive(a: real, b: real)
    requires a > 0.0 && b > 0.0
    ensures Mul(a, b) > 0.0
  {
  }

  lemma MulNegated(a: real)
    ensures Mul(-a, -a) == Mul(a, a)
  {
  }

  lemma SquareNonNegative(x: real)
    ensures Mul(x, x) >= 0.0
  {
  }

  lemma SquarePositive(x: real)
    requires x != 0.0
    ensures Mul(x, x) > 0.0
  {
    if x < 0.0 {
      MulPositive(-x, -x);
      MulNegated(x);
    } else {
      MulPositive(x, x);
    }
  }

  lemma SquareOfZero(x: real)
    requires x == 0.0
    ensures Mul(x, x) == 0.0
  {
  }

  /** `colorDistance`: squared Euclidean distance in RGB, no square root. */
  function ColorDistance(c1: Color, c2: Color): (d: real)
    ensures d >= 0.0
  {
    SquareNonNegative(c1.r - c2.r);
    SquareNonNegative(c1.g - c2.g);
    SquareNonNegative(c1.b - c2.b);
    (c1.r - c2.r) * (c1.r - c2.r) + (c1.g - c2.g) * (c1.g - c2.g) + (c1.b - c2.b) * (c1.b - c2.b)
  }

  /** Two colours at distance zero are equal. */
  lemma ColorDistanceZero(c1: Color, c2: Color)
    ensures ColorDistance(c1, c2) == 0.0 <==> c1 == c2
  {
    if c1 == c2 {
      SquareOfZero(c1.r - c2.r);
      SquareOfZero(c1.g - c2.g);
      SquareOfZero(c1.b - c2.b);
    } else if c1.r != c2.r {
      SquarePositive(c1.r - c2.r);
    } else if c1.g != c2.g {
      SquarePositive(c1.g - c2.g);
    } else {
      SquarePositive(c1.b - c2.b);
    }
  }

  /** Distance does not depend on the order of its arguments. */
  lemma ColorDistanceSymmetric(c1: Color, c2: Color)
    ensures ColorDistance(c1, c2) == ColorDistance(c2, c1)
  {
    MulNegated(c1.r - c2.r);
    MulNegated(c1.g - c2.g);
    MulNegated(c1.b - c2.b);
  }

  /** Distance from `color` to palette entry `i`. */
  function Dist(color: Color, palette: seq<Rgb>, i: nat): real
    requires i < |palette|
  {
    ColorDistance(color, ToColor(palette[i]))
  }

  /** Among the first `n` palette entries, `k` is nearest to `color` and no
      earlier entry is as near. */
  ghost predicate IsFirstNearest(color: Color, palette: seq<Rgb>, n: nat, k: nat) {
    && k < n <= |palette|
    && (forall j :: 0 <= j < n ==> Dist(color, palette, k) <= Dist(color, palette, j))
    && (forall j :: 0 <= j < k ==> Dist(color, palette, j) > Dist(color, palette, k))
  }

  /** The loop of `findClosestPaletteColor` after it has looked at the first
      `n` entries: the entry held so far. It starts with entry 0 and only a
      strictly smaller distance replaces it. */
  function NearestAmong(color: Color, palette: seq<Rgb>, n: nat): (k: nat)
    requires 0 < n <= |palette|
    ensures IsFirstNearest(color, palette, n, k)
  {
    if n == 1 then 0
    else
      var best := NearestAmong(color, palette, n - 1);
      if Dist(color, palette, n - 1) < Dist(color, palette, best) then n - 1 else best
  }

  /** Index of the colour `findClosestPaletteColor` returns; `palette[0]` is read
      unguarded, so the palette must not be empty. */
  function NearestIndex(color: Color, palette: seq<Rgb>): (k: nat)
    requires |palette| > 0
    ensures IsFirstNearest(color, palette, |palette|, k)
  {
    NearestAmong(color, palette, |palette|)
  }

  /** `findClosestPaletteColor`. */
  function FindClosestPaletteColor(color: Color, palette: seq<Rgb>): (c: Rgb)
    requires |palette| > 0
    ensures c in palette
    ensures forall j :: 0 <= j < |palette| ==> ColorDistance(color, ToColor(c)) <= Dist(color, palette, j)
  {
    palette[NearestIndex(color, palette)]
  }

  /** A colour that is in the palette is matched to itself. */
  lemma ClosestOfMember(c: Rgb, palette: seq<Rgb>)
    requires c in palette
    ensures FindClosestPaletteColor(ToColor(c), palette) == c
  {
    var j :| 0 <= j < |palette| && palette[j] == c;
    ColorDistanceZero(ToColor(c), ToColor(c));
    MatchAtZeroDistance(ToColor(c), palette, FindClosestPaletteColor(ToColor(c), palette), j);
  }

  /** A colour at least as near as an entry at distance zero is that colour. */
  lemma MatchAtZeroDistance(color: Color, palette: seq<Rgb>, m: Rgb, j: nat)
    requires j < |palette| && Dist(color, palette, j) == 0.0
    requires forall k :: 0 <= k < |palette| ==> ColorDistance(color, ToColor(m)) <= Dist(color, palette, k)
    ensures ToColor(m) == color
  {
    ColorDistanceZero(color, ToColor(m));
  }

  /** The palette order decides ties: with two equally near entries, the one
      listed first wins. */
  lemma {:induction false} FirstOfEqualDistanceWins(color: Color, palette: seq<Rgb>, i: nat, j: nat)
    requires i < j < |palette|
    requires Dist(color, palette, i) == Dist(color, palette, j)
    ensures NearestIndex(color, palette) != j
  {
  }

  // ------------------------------------------------------------- hexToRgb

  /** `hexToRgb`: drop the first `#`, `parseInt(…, 16)`, then split the number
      into bytes. No digits at all (NaN) gives black; so does a magnitude too
      large for a double (Infinity), since the shifts read it as 0. */
  function HexToRgb(hex: string): (c: Rgb)
    ensures ParseIntHex(ReplaceFirst(hex, '#')).None? ==> c == Rgb(0, 0, 0)
    ensures var p := ParseIntHex(ReplaceFirst(hex, '#'));
      p.Some? && NumberOfInt(p.value).None? ==> c == Rgb(0, 0, 0)
    ensures var p := ParseIntHex(ReplaceFirst(hex, '#'));
      p.Some? && NumberOfInt(p.value).Some? ==> c == RgbOfInt(NumberOfInt(p.value).value)
  {
    match ParseIntHex(ReplaceFirst(hex, '#'))
    case None => Rgb(0, 0, 0)
    case Some(v) =>
      match NumberOfInt(v)
      case None => Rgb(0, 0, 0)
      case Some(n) => RgbOfInt(n)
  }

  /** `(n >> 16) & 255`, `(n >> 8) & 255`, `n & 255` for an integer-valued
      double `n`. The shifts act on the 32-bit two's-complement form of `n`
      (`n` modulo 2^32), whose low 24 bits are those of `n`; an arithmetic
      shift is floor division, and `& 255` the non-negative remainder, which
      Euclidean `/` and `%` reproduce. */
  function RgbOfInt(n: int): Rgb {
    Rgb((n / 65536) % 256, (n / 256) % 256, n % 256)
  }

  /** The three channels, read as one base-256 number, are `n` modulo 2^24. */
  lemma RgbOfIntLow24(n: int)
    ensures var c := RgbOfInt(n); (c.r * 256 + c.g) * 256 + c.b == n % 0x100_0000
  {
    var z, q1 := n % 256, n / 256;
    var y, q2 := q1 % 256, q1 / 256;
    var x, w := q2 % 256, q2 / 256;
    assert n == ((w * 256 + x) * 256 + y) * 256 + z;
    DivModOf(n, q2, y * 256 + z, 65536);
    DivModOf(n, w, (x * 256 + y) * 256 + z, 0x100_0000);
  }

  /** Only the low three bytes of the number reach the colour; anything above
      them, negative or not, is dropped. */
  lemma RgbOfIntBytes(w: int, x: Byte, y: Byte, z: Byte)
    ensures RgbOfInt(((w * 256 + x) * 256 + y) * 256 + z) == Rgb(x, y, z)
  {
    var hi := w * 256 + x;
    var v := (hi * 256 + y) * 256 + z;
    DivModOf(v, hi * 256 + y, z, 256);
    DivModOf(hi * 256 + y, hi, y, 256);
    DivModOf(v, hi, y * 256 + z, 65536);
    DivModOf(hi, w, x, 256);
  }

  /** The digit run `parseInt` reads when `hexToRgb` is given `s` or `"#" + s`. */
  lemma ParsedDigits(s: string)
    requires |s| > 0 && AllHex(s)
    ensures ParseIntHex(ReplaceFirst(s, '#')) == Some(HexValue(s))
    ensures ParseIntHex(ReplaceFirst("#" + s, '#')) == Some(HexValue(s))
  {
    assert ("#" + s)[1..] == s;
    assert ReplaceFirst("#" + s, '#') == s;
    assert forall i :: 0 <= i < |s| ==> s[i] != '#';
    assert ReplaceFirst(s, '#') == s;
    ParseIntHexOfDigits(s);
  }

  /** The value of six hex digits, pair by pair. */
  lemma SixDigitValue(s: string)
    requires |s| == 6 && AllHex(s)
    ensures HexValue(s) == (HexByte(s, 0) * 256 + HexByte(s, 2)) * 256 + HexByte(s, 4)
  {
    var r, g, b := s[0..2], s[2..4], s[4..6];
    assert s == r + g + b;
    ThreePairsValue(r, g, b);
  }

  lemma ThreePairsValue(r: string, g: string, b: string)
    requires AllHex(r) && AllHex(g) && AllHex(b) && |g| == 2 && |b| == 2
    ensures AllHex(r + g + b)
    ensures HexValue(r + g + b) == (HexValue(r) * 256 + HexValue(g)) * 256 + HexValue(b)
  {
    HexValueAppendPair(r, g);
    HexValueAppendPair(r + g, b);
  }

  /** A run of up to thirteen hex digits, with or without a leading `#`,
      decodes as its value: the number is below 2^53, so the double is exact. */
  lemma HexToRgbOfDigits(s: string)
    requires |s| > 0 && AllHex(s) && |s| <= 13
    ensures HexToRgb(s) == RgbOfInt(HexValue(s))
    ensures HexToRgb("#" + s) == RgbOfInt(HexValue(s))
  {
    ParsedDigits(s);
    ThirteenDigitsExact(s);
    var v := HexValue(s);
    assert NumberOfInt(v) == Some(v);
  }

  /** Longer runs lose their low bits to the double: fourteen `f`s
      (`#ffffffffffffff`) parse to 2^56 - 1, which rounds to 2^56, whose low
      three bytes are zero, so the colour is black rather than white. */
  lemma HexToRgbRoundsLongInput(s: string)
    requires |s| == 14 && forall i :: 0 <= i < |s| ==> s[i] == 'f'
    ensures HexToRgb("#" + s) == Rgb(0, 0, 0)
  {
    AllFValue(s);
    ParsedDigits(s);
    Pow16Of14();
    var v := HexValue(s);
    assert v == 0xff_ffff_ffff_ffff;
    FourteenFsRound();
    assert NumberOfInt(v) == Some(0x100_0000_0000_0000);
    Black56();
  }

  lemma Pow16Of14()
    ensures Pow16(14) == 0x100_0000_0000_0000
  {
  }

  lemma Black56()
    ensures RgbOfInt(0x100_0000_0000_0000) == Rgb(0, 0, 0)
  {
  }

  lemma FourteenFsRound()
    ensures NumberOfInt(0xff_ffff_ffff_ffff) == Some(0x100_0000_0000_0000)
  {
    var n := 0xff_ffff_ffff_ffff;
    assert DroppedBits(n / 8) == 0;
    assert DroppedBits(n / 4) == 1;
    assert DroppedBits(n / 2) == 2;
    assert DroppedBits(n) == 3;
    assert Pow2(3) == 8;
    assert RoundToDouble(n) == 0x100_0000_0000_0000;
  }

  /** A run of `f`s is one below the next power of sixteen. */
  lemma {:induction false} AllFValue(s: string)
    requires forall i :: 0 <= i < |s| ==> s[i] == 'f'
    ensures AllHex(s) && HexValue(s) == Pow16(|s|) - 1
  {
    if |s| > 0 {
      AllFValue(s[..|s| - 1]);
    }
  }

  /** Six hex digits, with or without `#`, decode pairwise into red, green and
      blue. */
  lemma HexToRgbSixDigits(s: string)
    requires |s| == 6 && AllHex(s)
    ensures HexToRgb(s) == HexToRgb("#" + s)
    ensures HexToRgb(s) == Rgb(HexByte(s, 0), HexByte(s, 2), HexByte(s, 4))
  {
    HexToRgbOfDigits(s);
    RgbOfSixDigits(s);
  }

  lemma RgbOfSixDigits(s: string)
    requires |s| == 6 && AllHex(s)
    ensures RgbOfInt(HexValue(s)) == Rgb(HexByte(s, 0), HexByte(s, 2), HexByte(s, 4))
  {
    SixDigitValue(s);
    RgbOfIntBytes(0, HexByte(s, 0), HexByte(s, 2), HexByte(s, 4));
  }

  /** Eight hex digits (`#RRGGBBAA`) shift by a byte: the decoded colour is
      green, blue, alpha. */
  lemma HexToRgbEightDigits(s: string)
    requires |s| == 8 && AllHex(s)
    ensures HexToRgb("#" + s) == Rgb(HexByte(s, 2), HexByte(s, 4), HexByte(s, 6))
  {
    HexToRgbOfDigits(s);
    RgbOfEightDigits(s);
  }

  lemma RgbOfEightDigits(s: string)
    requires |s| == 8 && AllHex(s)
    ensures RgbOfInt(HexValue(s)) == Rgb(HexByte(s, 2), HexByte(s, 4), HexByte(s, 6))
  {
    EightDigitValue(s);
    RgbOfIntBytes(HexValue(s[..2]), HexByte(s, 2), HexByte(s, 4), HexByte(s, 6));
  }

  /** The value of eight hex digits, pair by pair. */
  lemma EightDigitValue(s: string)
    requires |s| == 8 && AllHex(s)
    ensures HexValue(s) == ((HexValue(s[..2]) * 256 + HexByte(s, 2)) * 256 + HexByte(s, 4)) * 256 + HexByte(s, 6)
  {
    var t := s[2..];
    HighPairValue(s);
    assert t[0..2] == s[2..4] && t[2..4] == s[4..6] && t[4..6] == s[6..8];
    SixDigitValue(t);
  }

  lemma HighPairValue(s: string)
    requires |s| == 8 && AllHex(s)
    ensures AllHex(s[2..])
    ensures HexValue(s) == HexValue(s[..2]) * 16777216 + HexValue(s[2..])
  {
    assert s[..2] + s[2..] == s;
    HexValueAppend(s[..2], s[2..]);
    assert Pow16(6) == 16777216;
  }
}
