/** `applyPalette` of `image-to-pixel.js`: every pixel of an RGBA buffer is
    replaced by its nearest palette colour, alpha left as it is. */
module PaletteMap {
  import opened JsText
  import opened Pixels
  import opened ColorMatch

  /** Byte `k` of the buffer after `applyPalette`. */
  function MappedByte(data: seq<Byte>, palette: seq<Rgb>, k: nat): Byte
    requires |data| % 4 == 0 && |palette| > 0 && k < |data|
  {
    if k % 4 == 3 then data[k]
    else Channel(FindClosestPaletteColor(PixelColor(data, k / 4), palette), k % 4)
  }

  /** `applyPalette(imageData, paletteColors)`: the buffer of an ImageData
      always holds whole pixels, and the first palette entry is read without a
      guard. */
  function ApplyPalette(data: seq<Byte>, palette: seq<Rgb>): (out: seq<Byte>)
    requires |data| % 4 == 0 && |palette| > 0
    ensures |out| == |data|
    ensures forall k :: 0 <= k < |data| && k % 4 == 3 ==> out[k] == data[k]
  {
    seq(|data|, k requires 0 <= k < |data| => MappedByte(data, palette, k))
  }

  /** Pixel `p` after `applyPalette` is the palette colour nearest to it. */
  lemma ApplyPalettePixel(data: seq<Byte>, palette: seq<Rgb>, p: nat)
    requires |data| % 4 == 0 && |palette| > 0 && p < |data| / 4
    ensures PixelRgb(ApplyPalette(data, palette), p) == FindClosestPaletteColor(PixelColor(data, p), palette)
  {
    SlotOfPixel(p, 0);
    SlotOfPixel(p, 1);
    SlotOfPixel(p, 2);
  }

  /** Every pixel of the result is a palette colour, as near to the original
      pixel as any palette entry, and alpha and length are unchanged. */
  lemma ApplyPaletteMembers(data: seq<Byte>, palette: seq<Rgb>)
    requires |data| % 4 == 0 && |palette| > 0
    ensures SameAlpha(data, ApplyPalette(data, palette))
    ensures forall p :: 0 <= p < |data| / 4 ==> PixelRgb(ApplyPalette(data, palette), p) in palette
    ensures forall p, j :: 0 <= p < |data| / 4 && 0 <= j < |palette| ==>
      ColorDistance(PixelColor(data, p), ToColor(PixelRgb(ApplyPalette(data, palette), p)))
        <= Dist(PixelColor(data, p), palette, j)
  {
    forall p | 0 <= p < |data| / 4
      ensures PixelRgb(ApplyPalette(data, palette), p) == FindClosestPaletteColor(PixelColor(data, p), palette)
    {
      ApplyPalettePixel(data, palette, p);
    }
  }

  /** A pixel that already has a palette colour keeps it. */
  lemma PaletteColorKept(data: seq<Byte>, palette: seq<Rgb>, p: nat)
    requires |data| % 4 == 0 && |palette| > 0 && p < |data| / 4
    requires PixelRgb(data, p) in palette
    ensures PixelRgb(ApplyPalette(data, palette), p) == PixelRgb(data, p)
  {
    ApplyPalettePixel(data, palette, p);
    ClosestOfMember(PixelRgb(data, p), palette);
  }

  /** Mapping twice is mapping once. */
  lemma ApplyPaletteIdempotent(data: seq<Byte>, palette: seq<Rgb>)
    requires |data| % 4 == 0 && |palette| > 0
    ensures ApplyPalette(ApplyPalette(data, palette), palette) == ApplyPalette(data, palette)
  {
    var once := ApplyPalette(data, palette);
    forall p | 0 <= p < |data| / 4
      ensures PixelRgb(ApplyPalette(once, palette), p) == PixelRgb(once, p)
    {
      RemapPixel(data, palette, p);
    }
    PixelsDetermineBuffer(ApplyPalette(once, palette), once);
  }

  lemma RemapPixel(data: seq<Byte>, palette: seq<Rgb>, p: nat)
    requires |data| % 4 == 0 && |palette| > 0 && p < |data| / 4
    ensures PixelRgb(ApplyPalette(ApplyPalette(data, palette), palette), p) == PixelRgb(ApplyPalette(data, palette), p)
  {
    ApplyPalettePixel(data, palette, p);
    PaletteColorKept(ApplyPalette(data, palette), palette, p);
  }
}
