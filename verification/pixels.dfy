/** The shared data model: byte colours, fractional colours and row-major RGBA
    buffers (the `data` of an ImageData / the `pixels` of a p5.Image). */
module Pixels {
  import opened JsText

  /** A palette colour as `hexToRgb` returns it, or the `levels` of a p5 colour. */
  datatype Rgb = Rgb(r: Byte, g: Byte, b: Byte)

  /** A colour on its way to the palette matcher: error diffusion and ordered
      offsets make its channels fractional and possibly outside [0, 255]. */
  datatype Color = Color(r: real, g: real, b: real)

  function ToColor(c: Rgb): (k: Color)
    ensures k.r == c.r as real && k.g == c.g as real && k.b == c.b as real
  {
    Color(c.r as real, c.g as real, c.b as real)
  }

  lemma ToColorInjective(c: Rgb, d: Rgb)
    requires ToColor(c) == ToColor(d)
    ensures c == d
  {
  }

  /** Channel `i` (0 red, 1 green, 2 blue) of a byte colour. */
  function Channel(c: Rgb, i: nat): Byte
    requires i < 3
  {
    if i == 0 then c.r else if i == 1 then c.g else c.b
  }

  /** An RGBA buffer holding `w` by `h` pixels. */
  predicate IsImage<T>(data: seq<T>, w: nat, h: nat) {
    |data| == 4 * (w * h)
  }

  /** The three colour bytes of pixel `p`. */
  function PixelRgb(data: seq<Byte>, p: nat): Rgb
    requires 4 * p + 3 < |data|
  {
    Rgb(data[4 * p], data[4 * p + 1], data[4 * p + 2])
  }

  /** Pixel `p` read as a colour to be matched. */
  function PixelColor(data: seq<Byte>, p: nat): Color
    requires 4 * p + 3 < |data|
  {
    ToColor(PixelRgb(data, p))
  }

  /** Store colour `c` into the RGB bytes of pixel `p`. */
  function WritePixel(data: seq<Byte>, p: nat, c: Rgb): (out: seq<Byte>)
    requires 4 * p + 3 < |data|
    ensures |out| == |data|
    ensures PixelRgb(out, p) == c
    ensures forall k :: 0 <= k < |data| && k / 4 != p ==> out[k] == data[k]
    ensures out[4 * p + 3] == data[4 * p + 3]
  {
    data[4 * p := c.r][4 * p + 1 := c.g][4 * p + 2 := c.b]
  }

  /** Writing one pixel leaves every other pixel and every alpha byte as it was. */
  lemma WritePixelOthers(data: seq<Byte>, p: nat, c: Rgb)
    requires 4 * p + 3 < |data|
    ensures SameAlpha(data, WritePixel(data, p, c))
    ensures forall q :: 0 <= q < |data| / 4 && q != p ==> PixelRgb(WritePixel(data, p, c), q) == PixelRgb(data, q)
  {
    var out := WritePixel(data, p, c);
    forall k | 0 <= k < |data| && k % 4 == 3 ensures out[k] == data[k] {
      if k / 4 == p {
        SlotOfPixel(p, 3);
      }
    }
    forall q | 0 <= q < |data| / 4 && q != p ensures PixelRgb(out, q) == PixelRgb(data, q) {
      SlotOfPixel(q, 0); SlotOfPixel(q, 1); SlotOfPixel(q, 2);
    }
  }

  /** An image buffer holds whole pixels, `w * h` of them. */
  lemma ImageWholePixels<T>(data: seq<T>, w: nat, h: nat)
    requires IsImage(data, w, h)
    ensures |data| % 4 == 0 && |data| / 4 == w * h
  {
    DivModOf(|data|, w * h, 0, 4);
  }

  /** Two buffers of one length agree on every alpha byte. */
  predicate SameAlpha<T(==)>(a: seq<T>, b: seq<T>) {
    |a| == |b| && forall k :: 0 <= k < |a| && k % 4 == 3 ==> a[k] == b[k]
  }

  /** Linear position of the pixel at column `x`, row `y`. */
  lemma PixelIndexInRange(x: int, y: int, w: nat, h: nat)
    requires 0 <= x < w && 0 <= y < h
    ensures 0 <= y * w + x < w * h
  {
    assert y * w + x < y * w + w == (y + 1) * w;
    assert (y + 1) * w <= h * w;
  }

  /** Row-major decomposition of a linear pixel position. */
  lemma RowMajor(p: nat, w: nat)
    requires w > 0
    ensures p == (p / w) * w + p % w && 0 <= p % w < w
  {
  }

  /** The column and row of a pixel position inside a `w` by `h` image. */
  lemma RowMajorInRange(p: nat, w: nat, h: nat)
    requires p < w * h
    ensures w > 0 && p == (p / w) * w + p % w && 0 <= p % w < w && p / w < h
  {
    var y := p / w;
    if y >= h {
      assert false;
    }
  }

  /** Byte `i` of pixel `p` sits at `4 * p + i`. */
  lemma SlotOfPixel(p: nat, i: nat)
    requires i < 4
    ensures (4 * p + i) / 4 == p && (4 * p + i) % 4 == i
  {
    DivModOf(4 * p + i, p, i, 4);
  }

  /** Two buffers of whole pixels with the same alpha bytes and the same
      colour in every pixel are equal. */
  lemma PixelsDetermineBuffer(a: seq<Byte>, b: seq<Byte>)
    requires |a| % 4 == 0 && SameAlpha(a, b)
    requires forall p :: 0 <= p < |a| / 4 ==> PixelRgb(a, p) == PixelRgb(b, p)
    ensures a == b
  {
    forall k | 0 <= k < |a|
      ensures a[k] == b[k]
    {
      var p, i := k / 4, k % 4;
      SlotOfPixel(p, i);
      if i < 3 {
        assert PixelRgb(a, p) == PixelRgb(b, p);
      }
    }
  }
}
