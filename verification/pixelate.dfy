/** The option handling of `pixelate` in `image-to-pixel.js`: input checks,
    palette resolution, the pixel-grid size, the dispatch on the dithering
    name and the size of the final canvas. Loading the image, resampling it
    onto the grid and fetching a named palette are browser and network work;
    their outcomes are parameters here. */
module Pixelate {
  import opened Wrappers
  import opened JsText
  import opened Pixels
  import opened ColorMatch
  import opened PaletteMap
  import opened ErrorDiffusion
  import opened OrderedDither

  /** `options.palette`: absent (`null`), an array of hex strings, or a Lospec
      palette name. */
  datatype PaletteOption = NoPalette | Literal(colors: seq<string>) | Named(name: string)

  /** The destructured options; `hasImage` is whether `options.image` is truthy. */
  datatype Options = Options(hasImage: bool, width: nat, dither: string, strength: real,
                             palette: PaletteOption, resolution: string)

  /** Why `pixelate` rejects: a missing image or width, a failed palette fetch,
      a grid with no rows (the canvas read throws), an unknown dithering name, or
      an empty palette array (the matcher reads `palette[0]` of an empty array). */
  datatype PixelateError = MissingInput | PaletteFetchFailed | EmptyGrid | UnknownDither(name: string) | EmptyPalette

  /** The recoloured grid, its size, and the size of the returned canvas. */
  datatype Output = Output(data: seq<Byte>, gridWidth: nat, gridHeight: nat, canvasWidth: nat, canvasHeight: nat)

  /** `colors.map(hexToRgb)`. */
  function MapHexToRgb(colors: seq<string>): (r: seq<Rgb>)
    ensures |r| == |colors|
  {
    if |colors| == 0 then [] else [HexToRgb(colors[0])] + MapHexToRgb(colors[1..])
  }

  /** Entry `i` of the mapped palette is the decoding of string `i`. */
  lemma {:induction false} MapHexToRgbAt(colors: seq<string>, i: nat)
    requires i < |colors|
    ensures MapHexToRgb(colors)[i] == HexToRgb(colors[i])
    decreases i
  {
    if i > 0 {
      MapHexToRgbAt(colors[1..], i - 1);
    }
  }

  /** `paletteColors`: `fetched` is what `fetchPalette` resolved to for a
      palette name (`None` when it rejected). The empty name is falsy. */
  function PaletteColors(p: PaletteOption, fetched: Option<seq<string>>): (r: Result<Option<seq<Rgb>>, PixelateError>)
    ensures p.NoPalette? || (p.Named? && p.name == "") <==> r == Ok(None)
    ensures r.Ok? && r.value.Some? && p.Literal? ==> |r.value.value| == |p.colors|
    ensures r.Err? <==> p.Named? && p.name != "" && fetched.None?
  {
    match p
    case NoPalette => Ok(None)
    case Literal(colors) => Ok(Some(MapHexToRgb(colors)))
    case Named(name) =>
      if name == "" then Ok(None)
      else if fetched.None? then Err(PaletteFetchFailed)
      else Ok(Some(MapHexToRgb(fetched.value)))
  }

  /** `pixelsHigh = Math.round(width * (height / width_of_source))`, as the
      canvas stores it: a source of width 0 gives an infinite or NaN ratio,
      which a canvas dimension stores as 0. */
  function GridHeight(width: nat, srcW: nat, srcH: nat): (h: nat)
    ensures srcW == 0 ==> h == 0
  {
    if srcW == 0 then 0
    else
      var x := width as real * (srcH as real / srcW as real);
      assert x >= 0.0 by { NonNegativeRatio(width, srcW, srcH); }
      MathRound(x)
  }

  /** The grid keeps the source's aspect ratio to within half a row. */
  lemma GridHeightKeepsAspect(width: nat, srcW: nat, srcH: nat)
    requires srcW > 0
    ensures var h := GridHeight(width, srcW, srcH);
      h as real - 0.5 <= width as real * (srcH as real / srcW as real) < h as real + 0.5
  {
  }

  lemma NonNegativeRatio(width: nat, srcW: nat, srcH: nat)
    requires srcW > 0
    ensures width as real * (srcH as real / srcW as real) >= 0.0
  {
    var q := srcH as real / srcW as real;
    assert q * srcW as real == srcH as real;
    if q < 0.0 {
      NegativeTimesPositive(q, srcW as real);
    }
    NonNegativeProduct(width as real, q);
  }

  lemma NegativeTimesPositive(a: real, b: real)
    requires a < 0.0 && b > 0.0
    ensures a * b < 0.0
  {
  }

  lemma NonNegativeProduct(a: real, b: real)
    requires a >= 0.0 && b >= 0.0
    ensures a * b >= 0.0
  {
  }

  /** A square source keeps the requested width as the height. */
  lemma SquareSourceSquareGrid(width: nat, side: nat)
    requires side > 0
    ensures GridHeight(width, side, side) == width
  {
    assert side as real / side as real == 1.0;
    MathRoundUnique(width as real, width);
  }

  /** The dithering methods the lower-cased name can select. */
  datatype DitherMethod = NoDither | FloydSteinbergMethod | OrderedMethod(matrix: seq<seq<int>>)

  /** The chain of `dither.toLowerCase() === …` comparisons. */
  function MethodOf(name: string): (m: Option<DitherMethod>)
    ensures m.Some? && m.value.OrderedMethod? ==> IsThresholdMatrix(m.value.matrix)
    ensures m.Some? <==> name in {"none", "floyd-steinberg", "ordered", "4x4 bayer", "2x2 bayer"}
    ensures m == Some(NoDither) <==> name == "none"
    ensures m == Some(FloydSteinbergMethod) <==> name == "floyd-steinberg"
  {
    BayerTablesAreThresholdMatrices();
    if name == "none" then Some(NoDither)
    else if name == "floyd-steinberg" then Some(FloydSteinbergMethod)
    else if name == "ordered" then Some(OrderedMethod(Bayer8))
    else if name == "4x4 bayer" then Some(OrderedMethod(Bayer4))
    else if name == "2x2 bayer" then Some(OrderedMethod(Bayer2))
    else None
  }

  /** The colour stage on the sampled grid: with no palette nothing is mapped;
      with one, 'none' maps to the nearest colours and the other names dither.
      `strength` is already divided by 100. */
  function Recolor(data: seq<Byte>, w: nat, h: nat, dither: string, strength: real, colors: Option<seq<Rgb>>): (r: Result<seq<Byte>, PixelateError>)
    requires IsImage(data, w, h)
    ensures colors.None? ==> r == Ok(data)
    ensures r.Ok? ==> |r.value| == |data|
    ensures colors.Some? && MethodOf(ToLower(dither)).None? ==> r == Err(UnknownDither(dither))
    ensures colors.Some? && |colors.value| == 0 && |data| > 0 ==> r.Err?
    ensures r.Ok? <==> colors.None? || (MethodOf(ToLower(dither)).Some? && (|colors.value| > 0 || |data| == 0))
    ensures colors.Some? && |colors.value| > 0 && MethodOf(ToLower(dither)) == Some(NoDither) ==>
      r == Ok(ApplyPalette(data, colors.value))
    ensures colors.Some? && |colors.value| > 0 && MethodOf(ToLower(dither)) == Some(FloydSteinbergMethod) ==>
      r == Ok(FloydSteinberg(data, w, h, strength, colors.value))
    ensures colors.Some? && |colors.value| > 0 && MethodOf(ToLower(dither)).Some? && MethodOf(ToLower(dither)).value.OrderedMethod? ==>
      r == Ok(OrderedDithering(data, w, h, strength, colors.value, MethodOf(ToLower(dither)).value.matrix))
  {
    if colors.None? then Ok(data)
    else
      var palette := colors.value;
      var chosen := MethodOf(ToLower(dither));
      if chosen.None? then Err(UnknownDither(dither))
      else if |palette| == 0 then (if |data| == 0 then Ok(data) else Err(EmptyPalette))
      else match chosen.value
        case NoDither => Ok(ApplyPalette(data, palette))
        case FloydSteinbergMethod => Ok(FloydSteinberg(data, w, h, strength, palette))
        case OrderedMethod(m) => Ok(OrderedDithering(data, w, h, strength, palette, m))
  }

  /** `pixelate(options)` for a source of `srcW` by `srcH` pixels. `sampled` is
      what reading back the grid canvas yields after the source is drawn onto
      it; `fetched` is the outcome of fetching a named palette. */
  function Pixelate(opts: Options, srcW: nat, srcH: nat, fetched: Option<seq<string>>, sampled: seq<Byte>): (r: Result<Output, PixelateError>)
    requires IsImage(sampled, opts.width, GridHeight(opts.width, srcW, srcH))
    ensures !opts.hasImage || opts.width == 0 <==> r == Err(MissingInput)
    ensures r.Ok? <==> && opts.hasImage && opts.width > 0
                       && PaletteColors(opts.palette, fetched).Ok?
                       && GridHeight(opts.width, srcW, srcH) > 0
                       && Recolor(sampled, opts.width, GridHeight(opts.width, srcW, srcH), opts.dither,
                                  opts.strength / 100.0, PaletteColors(opts.palette, fetched).value).Ok?
    ensures r.Ok? ==> && srcW > 0
                      && r.value.gridWidth == opts.width
                      && r.value.gridHeight == GridHeight(opts.width, srcW, srcH) > 0
                      && |r.value.data| == |sampled|
    ensures r.Ok? && opts.resolution == "pixel" ==> (r.value.canvasWidth, r.value.canvasHeight) == (r.value.gridWidth, r.value.gridHeight)
    ensures r.Ok? && opts.resolution != "pixel" ==> (r.value.canvasWidth, r.value.canvasHeight) == (srcW, srcH)
    ensures r.Ok? ==> && PaletteColors(opts.palette, fetched).Ok?
                      && Recolor(sampled, opts.width, r.value.gridHeight, opts.dither, opts.strength / 100.0,
                                 PaletteColors(opts.palette, fetched).value) == Ok(r.value.data)
  {
    if !opts.hasImage || opts.width == 0 then Err(MissingInput)
    else match PaletteColors(opts.palette, fetched)
      case Err(e) => Err(e)
      case Ok(colors) =>
        var gh := GridHeight(opts.width, srcW, srcH);
        if gh == 0 then Err(EmptyGrid)
        else match Recolor(sampled, opts.width, gh, opts.dither, opts.strength / 100.0, colors)
          case Err(e) => Err(e)
          case Ok(out) =>
            if opts.resolution == "pixel" then Ok(Output(out, opts.width, gh, opts.width, gh))
            else Ok(Output(out, opts.width, gh, srcW, srcH))
  }

  /** The names the documentation spells with capitals select their methods. */
  lemma DocumentedNamesSelectMethods()
    ensures MethodOf(ToLower("Floyd-Steinberg")) == Some(FloydSteinbergMethod)
    ensures MethodOf(ToLower("2x2 Bayer")) == Some(OrderedMethod(Bayer2))
    ensures MethodOf(ToLower("4x4 Bayer")) == Some(OrderedMethod(Bayer4))
    ensures MethodOf(ToLower("ORDERED")) == Some(OrderedMethod(Bayer8))
  {
    assert ToLower("Floyd-Steinberg") == "floyd-steinberg";
    assert ToLower("2x2 Bayer") == "2x2 bayer";
    assert ToLower("4x4 Bayer") == "4x4 bayer";
    assert ToLower("ORDERED") == "ordered";
  }

  /** The name is compared without regard to case: two spellings with the same
      lower-case form recolour alike whenever one succeeds. */
  lemma RecolorCaseInsensitive(data: seq<Byte>, w: nat, h: nat, d1: string, d2: string, strength: real, colors: Option<seq<Rgb>>)
    requires IsImage(data, w, h) && ToLower(d1) == ToLower(d2)
    requires Recolor(data, w, h, d1, strength, colors).Ok?
    ensures Recolor(data, w, h, d2, strength, colors) == Recolor(data, w, h, d1, strength, colors)
  {
  }

  /** With a palette, every successful recolouring uses palette colours only and
      keeps alpha. */
  lemma RecolorInPalette(data: seq<Byte>, w: nat, h: nat, dither: string, strength: real, palette: seq<Rgb>)
    requires IsImage(data, w, h)
    requires Recolor(data, w, h, dither, strength, Some(palette)).Ok?
    ensures var out := Recolor(data, w, h, dither, strength, Some(palette)).value;
      SameAlpha(data, out) && forall q :: 0 <= q < w * h ==> PixelRgb(out, q) in palette
  {
    if |palette| > 0 {
      match MethodOf(ToLower(dither)).value
      case NoDither => ApplyPaletteMembers(data, palette);
      case FloydSteinbergMethod => FloydSteinbergInPalette(data, w, h, strength, palette);
      case OrderedMethod(m) =>
        OrderedDitheringPointwise(data, w, h, strength, palette, m);
        OrderedDitheringInPalette(data, w, h, strength, palette, m);
    } else {
      assert |data| == 0;
    }
  }

  /** At strength 0 every method reduces to plain nearest-colour mapping. */
  lemma RecolorZeroStrength(data: seq<Byte>, w: nat, h: nat, dither: string, palette: seq<Rgb>)
    requires IsImage(data, w, h) && |palette| > 0
    requires MethodOf(ToLower(dither)).Some?
    ensures Recolor(data, w, h, dither, 0.0, Some(palette)) == Ok(ApplyPalette(data, palette))
  {
    match MethodOf(ToLower(dither)).value
    case NoDither =>
    case FloydSteinbergMethod => FloydSteinbergZeroStrength(data, w, h, palette);
    case OrderedMethod(m) => OrderedDitheringZeroStrength(data, w, h, palette, m);
  }

  /** Without a palette the sampled grid is returned as it is. */
  lemma PixelateWithoutPalette(opts: Options, srcW: nat, srcH: nat, fetched: Option<seq<string>>, sampled: seq<Byte>)
    requires IsImage(sampled, opts.width, GridHeight(opts.width, srcW, srcH))
    requires opts.hasImage && opts.width > 0 && srcW > 0 && GridHeight(opts.width, srcW, srcH) > 0
    requires opts.palette.NoPalette? || opts.palette == Named("")
    ensures Pixelate(opts, srcW, srcH, fetched, sampled).Ok?
    ensures Pixelate(opts, srcW, srcH, fetched, sampled).value.data == sampled
  {
  }

  /** An unknown name is rejected when a palette is given, and ignored when none is. */
  lemma PixelateUnknownDither(opts: Options, srcW: nat, srcH: nat, fetched: Option<seq<string>>, sampled: seq<Byte>)
    requires IsImage(sampled, opts.width, GridHeight(opts.width, srcW, srcH))
    requires opts.hasImage && opts.width > 0 && GridHeight(opts.width, srcW, srcH) > 0
    requires MethodOf(ToLower(opts.dither)).None?
    requires PaletteColors(opts.palette, fetched).Ok?
    ensures PaletteColors(opts.palette, fetched).value.Some? <==>
      Pixelate(opts, srcW, srcH, fetched, sampled) == Err(UnknownDither(opts.dither))
  {
  }
}
