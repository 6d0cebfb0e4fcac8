# Image-to-Pixel in Dafny

A Dafny model of the colour logic of Image-to-Pixel, a browser tool that
turns images into pixel art. The repository holds three pieces, modelled
separately:

- **The `image-to-pixel.js` engine:**
  - `colorDistance`, a squared RGB distance;
  - `findClosestPaletteColor`, where the first minimum wins;
  - `applyPalette`;
  - Floyd–Steinberg error diffusion through an error buffer and `distributeError`;
  - `orderedDithering` with its three Bayer tables;
  - `hexToRgb`;
  - the option handling of `pixelate`: input checks, palette resolution, grid height, the dither-name dispatch and the output canvas size.
- **The older engine in `sketch.js`:**
  - `closestStep`;
  - `colorDistanceSquared` and `findClosestColor`;
  - `rgbToHex`;
  - `ditherImage`'s mode-to-table dispatch, its ordered threshold rule and its 3 by 3 error window;
  - the final posterise guard;
  - the palette-file format, i.e. what `downloadPalette` writes and what `handleFile`'s `/[0-9a-f]{6}/gi` reads back;
  - `checkInputValue`.
- **The palette library of `src/picker.js`:**
  - the stable sort by upper-cased name;
  - `#`-prefix normalisation;
  - duplicate-free naming when a palette is uploaded;
  - saving (an upsert), deleting, and removing and adding colours;
  - the two selectors' `'none'` reset to `['#ffffff']`.

## Modelling conventions

- **Buffers.** An image buffer is a `seq<Byte>` in row-major RGBA order, four bytes per pixel (`Pixels`).
- **Loops as folds.**
  - The pixel loops are recursive folds over the linear pixel index `p`, with `x = p % w` and `y = p / w`. This is the order of the source's nested `y`/`x` loops.
  - Error diffusion in `image-to-pixel.js` carries the image and a `seq<real>` error buffer together (`ErrorDiffusion.Scan`).
  - Neighbour writes are lists of taps `(dx, dy, weight)`, applied in loop order.
- **Numbers.**
  - JavaScript numbers become `int` where the values are integers and `real` where they are fractional.
  - `Math.round` is `floor(x + 0.5)` (`JsText.MathRound`).
  - `parseInt` reads the exact integer, then rounds it to the nearest double, ties to even (`JsText.NumberOfInt`). A result of 2^1024 or more is Infinity. Up to thirteen hex digits are exact; longer strings can lose low bits.
  - A write into a `Uint8ClampedArray` (the p5 `pixels` array in `sketch.js`) is `JsText.ToUint8Clamp`: it clamps to 0..255 and rounds half to even.
- **Strings.**
  - Strings are `seq<char>`.
  - `toUpperCase`/`toLowerCase` map ASCII letters only.
  - `<` on strings compares characters lexicographically.
  - `trim` removes the JavaScript white-space characters.
- **Errors.** Where the source throws, the model returns an error value. `Pixelate.PixelateError` covers:
  - a missing image or width;
  - a failed palette fetch;
  - a grid with no rows;
  - an unknown dithering name;
  - an empty palette array.
- **External inputs are parameters.** These are:
  - the browser-resampled grid (`sampled`);
  - the source image size;
  - the fetched palette;
  - the parsed upload;
  - the text of a palette file;
  - the value typed into an input.

Where the repository's own documentation and the code differ, the model
follows the code:
- `pixelsHigh` has no minimum of 1, and a grid of height 0 is an error.
- An empty palette array is truthy, so matching reads `palette[0]` of an empty array. That is an error unless the grid is empty.
- The dithering name is only checked when a palette is present.
- `image-to-pixel.js` offers Floyd–Steinberg and three Bayer tables only.
- In `sketch.js`, the "2x2 Bayer" table is 3 by 3.
- The `sketch.js` 8 by 8 table starts at 0. Its threshold `(0 - 1) / 64` is negative, so black moves up one level (`SketchDither.Bayer8BumpsBlack`).

## Model

| member | source | states |
|---|---|---|
| ColorMatch.ColorDistance | image-to-pixel.js:366-372 | the squared distance is never negative |
| ColorMatch.ColorDistanceZero | image-to-pixel.js:366-372 | the distance is 0 exactly when all three channels are equal |
| ColorMatch.ColorDistanceSymmetric | image-to-pixel.js:366-372 | the distance does not depend on the order of its arguments |
| ColorMatch.NearestAmong | image-to-pixel.js:352-361 | after the loop has seen the first `n` entries, the kept index is no farther than any of them and strictly closer than every entry before it |
| ColorMatch.NearestIndex | image-to-pixel.js:351-364 | the chosen index is a first minimum: no entry is closer, and every earlier entry is strictly farther |
| ColorMatch.FindClosestPaletteColor | image-to-pixel.js:351-364 | on a non-empty palette the result is a palette member, and no palette colour is closer to the input |
| ColorMatch.ClosestOfMember | image-to-pixel.js:351-364 | a colour that is already in the palette is matched to itself |
| ColorMatch.MatchAtZeroDistance | image-to-pixel.js:351-364 | when some palette entry is at distance 0, the match equals the input colour |
| ColorMatch.FirstOfEqualDistanceWins | image-to-pixel.js:355-360 | of two entries at equal distance, the later one is never chosen (the comparison is strict) |
| ColorMatch.HexToRgb | image-to-pixel.js:258-262 | removes the first `#` and parses base 16. Text with no leading hex digit parses to NaN, and a magnitude too large for a double gives Infinity; the bit operations turn both into black. Otherwise the channels are bytes 2, 1 and 0 of the number as a double holds it |
| ColorMatch.RgbOfIntLow24 | image-to-pixel.js:261 | the three channels, read as one base-256 number, are the parsed number modulo 2^24 |
| ColorMatch.RgbOfIntBytes | image-to-pixel.js:261 | shifting and masking recovers the three low bytes of a number, whatever its higher part |
| ColorMatch.ParsedDigits | image-to-pixel.js:259-260 | a non-empty string of hex digits, with or without a leading `#`, parses to its base-16 value |
| ColorMatch.HexToRgbOfDigits | image-to-pixel.js:258-262 | up to thirteen hex digits decode the same with and without a leading `#`, as the bytes of their exact value |
| ColorMatch.HexToRgbRoundsLongInput | image-to-pixel.js:258-262 | `#ffffffffffffff` (fourteen digits) parses to 2^56 - 1, which the double rounds to 2^56, so the colour is black, not white |
| ColorMatch.SixDigitValue | image-to-pixel.js:260 | six hex digits denote their three digit pairs, most significant first |
| ColorMatch.HexToRgbSixDigits | image-to-pixel.js:258-262 | `rrggbb` and `#rrggbb` both decode to the three pairs as red, green and blue |
| ColorMatch.HexToRgbEightDigits | image-to-pixel.js:258-262 | with eight digits the leading pair is dropped and the colour comes from pairs two to four |
| PaletteMap.ApplyPalette | image-to-pixel.js:264-273 | the buffer keeps its length and every alpha byte |
| PaletteMap.ApplyPalettePixel | image-to-pixel.js:266-271 | each pixel becomes the nearest palette colour to its own input colour |
| PaletteMap.ApplyPaletteMembers | image-to-pixel.js:264-273 | every output pixel is a palette member that no palette colour beats, and alpha is kept |
| PaletteMap.PaletteColorKept | image-to-pixel.js:264-273 | a pixel that already holds a palette colour is unchanged |
| PaletteMap.ApplyPaletteIdempotent | image-to-pixel.js:264-273 | mapping an image twice gives the same result as mapping it once |
| PaletteMap.RemapPixel | image-to-pixel.js:264-273 | mapping again leaves each already-mapped pixel where it is |
| ErrorDiffusion.FloydSteinbergWeightsSumToOne | image-to-pixel.js:306-309 | the four weights 7/16, 3/16, 5/16 and 1/16 add up to 1 |
| ErrorDiffusion.FloydSteinbergForward | image-to-pixel.js:306-309 | each of the four targets lies to the right on the same row or on the next row |
| ErrorDiffusion.ForwardTargetLater | image-to-pixel.js:279-281 | an in-image target to the right or below comes strictly later in row-major order |
| ErrorDiffusion.DistributeError | image-to-pixel.js:343-349 | the error buffer keeps its length |
| ErrorDiffusion.DistributeErrorEffect | image-to-pixel.js:343-349 | an out-of-bounds target changes nothing. Otherwise the target pixel's three colour slots grow by error times factor, and its fourth slot and every other pixel's slots are unchanged |
| ErrorDiffusion.Spread | image-to-pixel.js:306-309 | the four calls keep the buffer length |
| ErrorDiffusion.Zeros | image-to-pixel.js:277 | a fresh error buffer holds zeros |
| ErrorDiffusion.DiffuseStep | image-to-pixel.js:281-309 | one pixel's step keeps the image and error buffer of the same size |
| ErrorDiffusion.DiffuseFrom | image-to-pixel.js:279-311 | the rest of the scan keeps the image and error buffer of the same size |
| ErrorDiffusion.FloydSteinberg | image-to-pixel.js:275-313 | the returned buffer has the input's length |
| ErrorDiffusion.Pending | image-to-pixel.js:284-286 | the colour the matcher sees is the pixel's own colour when no error is pending on it |
| ErrorDiffusion.QuantError | image-to-pixel.js:299-303 | an exact palette match, or strength 0, leaves no error to spread |
| ErrorDiffusion.DiffuseStepEffect | image-to-pixel.js:284-296 | pixel `p` becomes the palette match of its colour plus its pending error. Every other pixel and every alpha byte is unchanged |
| ErrorDiffusion.DistributeKeepsBelow | image-to-pixel.js:343-349 | a target at or after position `b` leaves every buffer slot before pixel `b` alone |
| ErrorDiffusion.ForwardTapKeepsEarlier | image-to-pixel.js:306-309 | a forward target never changes the error of the current pixel or of any earlier pixel |
| ErrorDiffusion.SpreadKeepsEarlier | image-to-pixel.js:306-309 | spreading one pixel's error leaves the error of that pixel and of all earlier pixels unchanged |
| ErrorDiffusion.DistributeZero | image-to-pixel.js:343-349 | a zero error leaves the buffer as it was |
| ErrorDiffusion.SpreadZero | image-to-pixel.js:306-309 | a zero error spread over any taps leaves the buffer as it was |
| ErrorDiffusion.DiffuseStepErrorForward | image-to-pixel.js:305-309 | a step never changes the pending error of its own pixel or of an earlier one |
| ErrorDiffusion.ErrorFinalWhenRead | image-to-pixel.js:279-310 | once the scan reaches pixel `p`, nothing later changes the error of `p` or of earlier pixels, so the error it reads is final |
| ErrorDiffusion.FloydSteinbergErrorFinal | image-to-pixel.js:279-310 | the same holds for the four Floyd–Steinberg taps |
| ErrorDiffusion.DiffuseFromKeepsAlpha | image-to-pixel.js:294-296 | the scan never writes an alpha byte |
| ErrorDiffusion.DiffuseFromInPalette | image-to-pixel.js:291-296 | after the scan every pixel holds a palette colour |
| ErrorDiffusion.DiffuseFromKeepsEarlierPixels | image-to-pixel.js:279-296 | the scan from `p` leaves the pixels before `p` as they were |
| ErrorDiffusion.FloydSteinbergInPalette | image-to-pixel.js:275-313 | every output pixel is a palette colour, and alpha is untouched |
| ErrorDiffusion.DiffuseFromZeroStrength | image-to-pixel.js:299-303 | at strength 0 every scanned pixel is the plain palette match of its input |
| ErrorDiffusion.FloydSteinbergZeroStrength | image-to-pixel.js:299-303 | at strength 0 Floyd–Steinberg equals `applyPalette` |
| ErrorDiffusion.PlainlyMappedIsApplyPalette | image-to-pixel.js:264-273 | a buffer whose pixels are all plainly mapped, with alpha kept, is `applyPalette`'s output |
| OrderedDither.BayerTablesAreThresholdMatrices | image-to-pixel.js:81-110 | the 8 by 8, 4 by 4 and 2 by 2 tables are square and hold ranks 0 .. N²-1 |
| OrderedDither.Threshold | image-to-pixel.js:324 | on such a table the threshold lies strictly between 0 and 255 |
| OrderedDither.ThresholdBounds | image-to-pixel.js:324 | a rank `0 <= v < N²` gives a threshold strictly inside (0, 255) |
| OrderedDither.Adjusted | image-to-pixel.js:326-330 | the same offset is added to all three channels |
| OrderedDither.AdjustedZeroStrength | image-to-pixel.js:326-330 | strength 0 leaves the colour unchanged |
| OrderedDither.OrderedPixel | image-to-pixel.js:322-333 | the colour written into a pixel is a palette colour |
| OrderedDither.OrderedPixelZeroStrength | image-to-pixel.js:322-333 | at strength 0 a pixel becomes its plain palette match |
| OrderedDither.OrderedFrom | image-to-pixel.js:319-339 | the scan keeps the buffer length |
| OrderedDither.OrderedDithering | image-to-pixel.js:315-341 | the returned buffer has the input's length |
| OrderedDither.OrderedFromKeepsAlpha | image-to-pixel.js:335-337 | alpha bytes are never written |
| OrderedDither.OrderedFromKeepsEarlier | image-to-pixel.js:319-339 | the scan from `p` leaves earlier pixels alone |
| OrderedDither.OrderedFromPointwise | image-to-pixel.js:319-339 | every pixel from `p` on ends as a function of its own input colour and its table cell only |
| OrderedDither.OrderedDitheringPointwise | image-to-pixel.js:315-341 | the whole result is that pointwise map, with alpha kept: pixels do not interact |
| OrderedDither.OrderedDitheringInPalette | image-to-pixel.js:333-337 | every output pixel is a palette colour |
| OrderedDither.OrderedDitheringZeroStrength | image-to-pixel.js:326-333 | at strength 0 ordered dithering equals `applyPalette` |
| Pixelate.MapHexToRgb | image-to-pixel.js:45 | the mapped palette has one colour per string |
| Pixelate.MapHexToRgbAt | image-to-pixel.js:45 | colour `i` is the decoding of string `i` |
| Pixelate.PaletteColors | image-to-pixel.js:40-49 | there is no palette exactly when the option is absent or the empty name. An array keeps its length. The only failure is a non-empty name whose fetch failed |
| Pixelate.GridHeight | image-to-pixel.js:52-54 | a source of width 0 gives no rows |
| Pixelate.GridHeightKeepsAspect | image-to-pixel.js:52-54 | the grid height is `width * srcH / srcW` rounded half up, with no minimum |
| Pixelate.SquareSourceSquareGrid | image-to-pixel.js:52-54 | a square source gives a square grid |
| Pixelate.MethodOf | image-to-pixel.js:73-116 | exactly the five lower-case names `none`, `floyd-steinberg`, `ordered`, `4x4 bayer` and `2x2 bayer` are accepted; `none` alone selects plain mapping and `floyd-steinberg` alone error diffusion; every table selected is a valid threshold matrix |
| Pixelate.Recolor | image-to-pixel.js:73-119 | without a palette the pixels are untouched. With one, it succeeds exactly when the lower-cased name is known and the palette is non-empty (or the grid is empty); an unknown name is rejected with that name. `none` gives `applyPalette`, `floyd-steinberg` gives `floydSteinbergDithering`, and the Bayer names give `orderedDithering` with their table. Success keeps the length |
| Pixelate.Pixelate | image-to-pixel.js:12-148 | it fails with the missing-input error exactly when the image or the width is falsy. It succeeds exactly when the image and width are present, the palette resolves, the grid has rows and the colour stage succeeds. On success: the grid is `width` by the rounded height; the canvas is the grid for `'pixel'` and the source size otherwise; and the pixels are the colour stage's output at strength / 100 |
| Pixelate.DocumentedNamesSelectMethods | image-to-pixel.js:74-110 | the names match case-insensitively: "Floyd-Steinberg", "2x2 Bayer", "4x4 Bayer" and "ORDERED" select their methods |
| Pixelate.RecolorCaseInsensitive | image-to-pixel.js:74-105 | two names that agree when lower-cased give the same result |
| Pixelate.RecolorInPalette | image-to-pixel.js:74-119 | with a palette, every successful output pixel is a palette colour, and alpha is kept |
| Pixelate.RecolorZeroStrength | image-to-pixel.js:73-119 | at strength 0 every known method reduces to `applyPalette` |
| Pixelate.PixelateWithoutPalette | image-to-pixel.js:43-49 | without a palette the sampled grid is returned with no colour mapping |
| Pixelate.PixelateUnknownDither | image-to-pixel.js:114-116 | an unknown dithering name is rejected exactly when a palette is present |
| SketchColor.StepSize | sketch.js:299 | `floor(255 / steps)` is the largest `d` with `d * steps <= 255` |
| SketchColor.ClosestStep | sketch.js:298-300 | the result is a multiple of `floor(255 / steps)`. More than 255 steps always give 0 |
| SketchColor.ClosestStepMonotonic | sketch.js:298-300 | the posterised value does not decrease as the input grows |
| SketchColor.ClosestStepInRange | sketch.js:298-300 | a byte posterises to a byte |
| SketchColor.ClosestStepIdentity | sketch.js:298-300 | 255 steps leave every value unchanged |
| SketchColor.ColorDistanceSquared | sketch.js:530-535 | the distance is never negative |
| SketchColor.ColorDistanceSquaredAsReal | sketch.js:530-535 | it is the same number as `colorDistance` of `image-to-pixel.js` |
| SketchColor.ColorDistanceSquaredZero | sketch.js:530-535 | the distance is 0 exactly when the colours are equal |
| SketchColor.ColorDistanceSquaredSymmetric | sketch.js:530-535 | the distance is symmetric |
| SketchColor.ScanClosest | sketch.js:537-545 | the loop, started from `Infinity`, ends on the first closest colour, and on none for an empty array |
| SketchColor.FindClosestColor | sketch.js:536-547 | an empty array gives `undefined`. Otherwise the result is a member that no member beats |
| SketchColor.FindClosestColorFirstWins | sketch.js:541-544 | the colour returned is held by the first closest position |
| SketchColor.FirstClosestUnique | sketch.js:541-544 | there is only one first closest position |
| SketchColor.FindClosestColorAgrees | sketch.js:536-547 | on a non-empty array it picks the same colour as `findClosestPaletteColor` |
| SketchColor.RgbToHex | sketch.js:524-529 | six lower-case hex digits, one zero-padded pair per channel, in red, green, blue order |
| SketchColor.RgbToHexRoundTrip | sketch.js:524-529 | `hexToRgb` inverts `rgbToHex`, with or without a leading `#` |
| SketchColor.RgbToHexInjective | sketch.js:524-529 | different colours give different strings |
| SketchColor.CheckInputValue | sketch.js:567-577 | a value above max becomes max, and one below min becomes min. An in-range or unparsable value is left alone |
| SketchColor.ShownValue | sketch.js:567-577 | the field shows a number exactly when one was typed; with `min <= max` it lies in [min, max], and an in-range number is kept |
| SketchColor.CheckInputValueClamps | sketch.js:567-577 | afterwards the shown value lies within [min, max], and an in-range value is kept |
| SketchColor.CheckInputValueIdempotent | sketch.js:567-577 | a second check changes nothing |
| SketchDither.TableOf | sketch.js:124-221 | modes 2, 3 and 4 are ordered and every other mode diffuses. Outside 1 .. 11 the Floyd–Steinberg table is used |
| SketchDither.ThresholdPeriodic | sketch.js:243-245 | the ordered threshold `(m[x % N][y % N] - 1) / N²` tiles the image: moving `N` pixels right or down gives the same threshold |
| SketchDither.Quantized | sketch.js:242-250 | `newValue` is `closestStep`, plus one step exactly when the table is ordered and `v / 255` exceeds `(M[x%N][y%N] - 1) / N²` |
| SketchDither.NextLevel | sketch.js:248 | one step above a level is again a level |
| SketchDither.WindowRow | sketch.js:255-275 | a row of the window reads `m[dy + 1][dx + 1]` with `dx` in -1 .. 1, and only columns that exist |
| SketchDither.WindowTaps | sketch.js:254-278 | the window's writes have `dx` and `dy` in -1 .. 1, weight `m[dy + 1][dx + 1]`, and never read column 3 or beyond |
| SketchDither.WindowTapsComplete | sketch.js:254-278 | every cell of the first three rows and columns that exists is visited |
| SketchDither.FloydSteinbergWindow | sketch.js:126-129 | the Floyd–Steinberg table reaches the pixel above right, the pixel itself and its row neighbours, never the row below |
| SketchDither.AddError | sketch.js:259-275 | one error write keeps the buffer length |
| SketchDither.SpreadChannel | sketch.js:254-278 | one channel's error, spread over the window's taps, keeps the buffer length; which bytes change is stated by the lemmas below |
| SketchDither.SpreadChannelOnlyChannel | sketch.js:273-274 | spreading channel `i` writes only channel `i` bytes |
| SketchDither.SpreadChannelInWindow | sketch.js:254-278 | error is added only to in-bounds pixels within one step of (x, y) |
| SketchDither.SpreadChannelKeepsEarlier | sketch.js:254-278 | forward taps never touch the current or earlier pixels |
| SketchDither.ChannelStep | sketch.js:241-278 | one channel's store and error spread keep the buffer length; the stored byte and the spared bytes are stated in `ChannelStepKeepsEarlier` |
| SketchDither.PixelStep | sketch.js:240-279 | the three channel steps of a pixel keep the buffer length; their order is stated in `PixelStepEffect` |
| SketchDither.DitherFrom | sketch.js:237-282 | the pixel loops from pixel `p` keep the buffer length |
| SketchDither.DitherImage | sketch.js:121-282 | `ditherImage` keeps the pixel array's length; alpha, the ordered modes and the window are stated in the lemmas below |
| SketchDither.ChannelStepOnlyChannel | sketch.js:241-278 | a channel step changes only that channel |
| SketchDither.ChannelStepInWindow | sketch.js:241-278 | a channel step changes nothing outside the 3 by 3 window around its pixel |
| SketchDither.NearTapsInWindow | sketch.js:241-278 | the same holds for any taps within one step |
| SketchDither.ChannelStepKeepsEarlier | sketch.js:241-252 | the stored byte is the clamped `newValue`, and forward taps change no earlier byte |
| SketchDither.OrderedChannelStep | sketch.js:241-252 | an ordered step writes exactly one byte |
| SketchDither.PixelStepEffect | sketch.js:240-252 | the three channels are stored red first, each from the buffer the previous channel left, and alpha is kept |
| SketchDither.PixelStepKeepsEarlier | sketch.js:240-280 | a pixel's step with forward taps leaves earlier pixels alone |
| SketchDither.DitherFromKeepsEarlier | sketch.js:237-282 | the scan from `p` with forward taps leaves earlier pixels alone |
| SketchDither.DitherFromKeepsAlpha | sketch.js:240 | the alpha byte (offset 3) is never written |
| SketchDither.DitherImageKeepsAlpha | sketch.js:121-282 | `ditherImage` keeps every alpha byte |
| SketchDither.QuantizedMonotonic | sketch.js:242-250 | for a fixed cell, a brighter input never quantises lower |
| SketchDither.OrderedBlackStaysBlack | sketch.js:243-250 | with the 4 by 4 and the 3 by 3 tables, black stays black |
| SketchDither.Bayer8BumpsBlack | sketch.js:141-150 | the 8 by 8 table's 0 entry gives a negative threshold, so black rises by one step |
| SketchDither.OrderedPixelStep | sketch.js:240-252 | an ordered pixel step writes the three colour bytes and nothing else |
| SketchDither.OrderedPixelStepBytes | sketch.js:240-252 | each of those bytes depends only on its own input byte and its position |
| SketchDither.OrderedFromPointwise | sketch.js:237-282 | with an ordered table the scan from `p` is a pointwise map of the input bytes |
| SketchDither.OrderedDitherPointwise | sketch.js:121-282 | in the ordered modes every colour byte depends only on its own value and position, and no other pixel affects it |
| SketchDither.OrderedIgnoresTaps | sketch.js:253 | the window is skipped when the table is ordered |
| SketchDither.KernelTaps | sketch.js:126-221 | the corrected taps are the table's nonzero cells, row `dy` below the pixel, anchored at the middle column |
| SketchDither.KernelTapsComplete | sketch.js:126-221 | every nonzero cell of the table gives a tap |
| SketchDither.KernelTapsForward | sketch.js:126-221 | a table whose first row is zero up to the pixel only reaches later pixels |
| SketchDither.DiffusionTablesCausal | sketch.js:126-221 | every diffusion table of the dispatch has that form |
| SketchDither.CorrectedDitherImage | sketch.js:237-282 | the corrected scan keeps the buffer length |
| SketchDither.NewByteLevel | sketch.js:242-252 | a diffusion step stores a posterised level |
| SketchDither.DitherFromLevels | sketch.js:237-282 | with forward taps, every finished pixel stays a level |
| SketchDither.CorrectedDitherLevels | sketch.js:237-282 | with the corrected taps every colour byte of the result is a posterised level, and alpha is kept |
| SketchDither.WindowWritesFinishedPixel | sketch.js:253-278 | as written, an example sends error into a finished pixel and leaves a byte that is not a level |
| SketchDither.PosterizeLevel | sketch.js:284-286 | as written the filter runs for every numeric amount, asking for `22 - posterizeAmnt` levels |
| SketchDither.PosterizeGuardAlwaysHolds | sketch.js:284 | as written the guard holds for every numeric amount, so 0 asks for 22 levels and 30 for -8 |
| SketchDither.CorrectedPosterizeLevel | sketch.js:284-286 | with `&&` the filter runs exactly for amounts 1 .. 20, with 2 .. 21 levels |
| SketchDither.CorrectedPosterizeOff | sketch.js:284 | the default amount 0 does not posterise |
| PaletteFile.JoinLines | sketch.js:385-387 | after `split("\n").join("")` no line feed remains, nothing is added, and text without line feeds is unchanged |
| PaletteFile.JoinLinesAppend | sketch.js:385-387 | removing line feeds works piece by piece |
| PaletteFile.HexRuns | sketch.js:388 | every match is six hex digits |
| PaletteFile.HexRunsEmpty | sketch.js:388 | there is no match exactly when no position starts six hex digits |
| PaletteFile.HexRunsLeftmost | sketch.js:388 | the first match is the leftmost run, and the search resumes right after it |
| PaletteFile.ReadPaletteFile | sketch.js:384-390 | the file yields no colours exactly when its joined text holds no run of six hex digits. Otherwise it yields a non-empty list of six-digit tokens |
| PaletteFile.TokenAcrossLineBreak | sketch.js:385-388 | six digits split over two lines read as one colour |
| PaletteFile.HexLines | sketch.js:361-363 | one `rgbToHex` line per colour |
| PaletteFile.JoinedLinesConcat | sketch.js:361-363 | `join("\n")` of six-digit lines, with the line feeds removed again, is the lines back to back |
| PaletteFile.PaletteFileText | sketch.js:360-363 | the saved text, without its line feeds, is the colours' `rgbToHex` strings back to back |
| PaletteFile.PaletteFileRoundTrip | sketch.js:360-390 | a saved palette reads back as the same lines, each decoding to its colour. An empty palette reads as nothing |
| PaletteLibrary.Names | src/picker.js:180 | the names of the palettes, in order |
| PaletteLibrary.Insert | src/picker.js:25-37 | inserting into a name-sorted list keeps it sorted and adds exactly that entry |
| PaletteLibrary.KeyIgnoresCase | src/picker.js:27-28 | the sort key ignores case: names equal once lower-cased get equal keys |
| PaletteLibrary.SortByName | src/picker.js:25-37 | the result is a permutation of the input, ordered by upper-cased name |
| PaletteLibrary.SortStable | src/picker.js:25-37 | entries with equal upper-cased names keep their relative order |
| PaletteLibrary.SortOfSorted | src/picker.js:25-37 | a sorted list is returned unchanged |
| PaletteLibrary.SortIdempotent | src/picker.js:25-37 | sorting twice equals sorting once |
| PaletteLibrary.Normalize | src/picker.js:40-42 | the result starts with `#` and is the input, or `#` prepended to it |
| PaletteLibrary.NormalizeIdempotent | src/picker.js:145-147 | normalising twice equals normalising once |
| PaletteLibrary.NormalizeAll | src/picker.js:219-221 | every colour of the list is normalised, and the length is kept |
| PaletteLibrary.NormalizeAllIdempotent | src/picker.js:262 | normalising a normalised list changes nothing |
| PaletteLibrary.Candidate | src/picker.js:250-256 | try 0 is the base name, and try `n` is the base name, `-`, then `n` |
| PaletteLibrary.CandidateInjective | src/picker.js:254-256 | different tries give different names |
| PaletteLibrary.TakenBound | src/picker.js:254-257 | only as many tries can be taken as there are names, so the naming loop ends |
| PaletteLibrary.AuthorOrUnknown | src/picker.js:261 | a missing or empty author becomes 'Unknown' |
| PaletteLibrary.AddUploadedPalette | src/picker.js:243-268 | an upload with no name or no colours changes nothing and returns nothing. Otherwise exactly one entry is appended after the unchanged list: it has the first untaken name, the author or 'Unknown', and the normalised colours. Its index is returned |
| PaletteLibrary.AddedNameIsFresh | src/picker.js:250-263 | the appended name keeps all names distinct |
| PaletteLibrary.FindIndex | src/picker.js:180 | `findIndex` gives the first position holding the name, and nothing when no entry has it |
| PaletteLibrary.Save | src/picker.js:174-192 | a blank trimmed name changes nothing. An existing name is replaced in place, leaving the others. A new name is appended. The selected index is where the name now sits |
| PaletteLibrary.SaveKeepsDistinct | src/picker.js:174-189 | with distinct names before, names stay distinct, and the saved name is held only by the selected entry |
| PaletteLibrary.RemoveAt | src/picker.js:198 | `splice(i, 1)` removes exactly position `i` and shifts the rest down. An index past the end changes nothing |
| PaletteLibrary.RemoveAtKeepsDistinct | src/picker.js:194-204 | deleting keeps names distinct |
| PaletteLibrary.Delete | src/picker.js:194-204 | unless the selector shows `''` or `'none'`, the list is `splice`d at the selected index: that entry goes and the others keep their order |
| PaletteLibrary.RemoveColor | src/picker.js:114-119 | the colour at the index goes and the others keep their order; an index past the end changes nothing |
| PaletteLibrary.AddColor | src/picker.js:169-172 | `#ffffff` is appended and the rest is kept |
| PaletteLibrary.SelectDefault | src/picker.js:137-152 | `'none'` gives `['#ffffff']`. An index gives that default palette's colours one for one, each normalised to start with `#`. An empty value or an index past the list fails |
| PaletteLibrary.SelectCustom | src/picker.js:154-167 | `'none'` gives `['#ffffff']`. An index gives a copy of that custom palette's colours |
| PaletteLibrary.UploadThenSelect | src/picker.js:223-229 | selecting the uploaded palette gives one `#`-prefixed colour per uploaded colour |
| JsText.MathRound | sketch.js:242 | `round` is within half a unit of its argument, and halves round up |
| JsText.MathRoundUnique | sketch.js:242 | only one integer is within that distance |
| JsText.MathRoundMonotonic | sketch.js:242 | rounding does not decrease |
| JsText.ToUint8Clamp | sketch.js:252 | storing into the pixel array clamps to 0 .. 255 and rounds to the nearest integer, ties to even |
| JsText.ToUint8ClampOfByte | sketch.js:252 | a byte is stored unchanged |
| JsText.ToHexString | sketch.js:525 | `toString(16)` gives lower-case digits denoting the number, one digit below 16 and two below 256 |
| JsText.PadStart2 | sketch.js:525 | `padStart(2, "0")` prefixes zeros up to length 2 |
| JsText.ByteHexString | sketch.js:525-527 | a byte becomes two lower-case hex digits denoting it |
| JsText.HexValueAppend | image-to-pixel.js:260 | appending digits shifts the value by the number of digits appended |
| JsText.DecimalString | src/picker.js:255 | the decimal digits of a counter denote it |
| JsText.DecimalStringInjective | src/picker.js:255 | different counters print differently |
| JsText.Trim | src/picker.js:175 | the trimmed name is a slice of the input with only white space before and after it, and it neither starts nor ends with white space |
| JsText.ParseIntHex | image-to-pixel.js:260 | `parseInt(s, 16)` is NaN exactly when no hex digit follows the optional sign and `0x` |
| JsText.RoundToDouble | image-to-pixel.js:260 | below 2^53 an integer is kept; above, the result is a multiple of the unit for the dropped bits and within half a unit of the input |
| JsText.NumberOfInt | image-to-pixel.js:260 | integers of magnitude below 2^53 are kept exactly; others become the nearest double, or Infinity at 2^1024 and beyond |
| JsText.ParseIntHexOfDigits | image-to-pixel.js:260 | a string of hex digits parses to its value |
| JsText.ReplaceFirst | image-to-pixel.js:259 | `replace('#', '')` removes exactly the first `#`: the result is the text before it followed by the text after it, and text without `#` is unchanged |
| JsText.ToLower | image-to-pixel.js:74 | lower-casing maps each letter and leaves no capital |
| JsText.ToLowerIdempotent | image-to-pixel.js:74-105 | lower-casing twice equals lower-casing once |
| JsText.ToUpper | src/picker.js:27-28 | upper-cases each character on its own and keeps the length |
| JsText.StrLessIrreflexive | src/picker.js:29-34 | no name sorts before itself |
| JsText.StrLessTransitive | src/picker.js:29-34 | the string order is transitive |
| JsText.StrLessTotal | src/picker.js:29-35 | two names neither of which is less are equal |

## Left out

- Image loading (`loadOriginalImage`), p5/Q5 type sniffing and the conversion of the final canvas: browser and library plumbing. The source size and whether an image was given are parameters.
- Canvas resampling (`drawImage`, `getImageData`, `putImageData`, the nearest-neighbour upscale): browser filters whose code is not part of this model. The resampled grid is the parameter `sampled`.
- `fetchPalette` and its cache: network I/O. Its outcome is the parameter `fetched`.
- IEEE-754 arithmetic: channels and errors are exact reals, and the `Float32Array` error buffer is not rounded to single precision. No bit-for-bit agreement is claimed. Integers from `parseInt` are the exception: they are rounded to doubles.
- Pixelate.Options: `width` is a natural number. A fractional, negative or NaN width and non-string `dither` values are not modelled.
- Pixelate.GridHeight: a source of width 0 is stored as height 0, which stands for the canvas receiving an infinite or NaN height.
- SketchColor.ClosestStep: requires `steps >= 1`. With 0 steps the source computes NaN, and negative steps are not modelled.
- SketchColor.CheckInputValue: `min` and `max` are taken as numbers. The source compares the input's string attributes with a number; `parseInt` failing is `None`.
- The p5 `filter(POSTERIZE)` itself, `createImage`/`copy`, `loadPixels`/`updatePixels`, the sketch's `Pixelate` sampler, `draw`, `setup`, `downloadImage`, and drag-and-drop and file-reader plumbing: library and DOM calls. Only the posterise guard and level are modelled.
- SketchDither.PosterizeLevel: the amount is an integer. `posterizeAmnt` is the selector's text, and text that is not a number gives NaN, which fails both comparisons; that case is not modelled.
- `handleFile`'s file-name handling and the rebuild of the colour pickers: DOM work. Only the extracted hex tokens are modelled.
- The UI and persistence of `src/picker.js` (Pickr and its change handler, `localStorage`, selector rebuilding, `alert`, `JSON.parse`, the JSON download) and the contents of `DEFAULT_PALETTES`: DOM and storage.
- PaletteLibrary.AddUploadedPalette: the first-free-name property `FirstFree` is a ghost predicate. The method's ensures pins down the rest.
- JsText.StrLess: compares Unicode code points where JavaScript compares UTF-16 code units. The two differ only for characters outside the Basic Multilingual Plane.
- JsText.ToUpper and JsText.ToLower: map ASCII letters only, not the full Unicode case tables.
- `src/logo.js`: DOM construction and random animation.

## Findings

| source | as written | input that shows it | evidently intended | confidence | as-written member | corrected member |
|---|---|---|---|---|---|---|
| sketch.js:284 | `posterizeAmnt > 0 \|\| posterizeAmnt <= 20` holds for every numeric amount, so the posterise filter always runs | amount 0 (the default) asks for 22 levels; amount 30 asks for -8 | `&&`: posterise only for amounts 1 .. 20, giving 2 .. 21 levels | not executed | SketchDither.PosterizeGuardAlwaysHolds | SketchDither.CorrectedPosterizeLevel |
| sketch.js:253-278 | the error window is centred on the pixel. Table row 0 is the row above, so Floyd–Steinberg's 7/16 goes to the already finished pixel above right, and 5/16 goes back onto the pixel itself | a 2 by 2 black image with red 100 in pixel 2, 1 step, mode 1: pixel 1's red becomes 44, which is not a level | row 0 of each table is the current row, anchored at its middle column, so error only reaches later pixels and every finished byte stays a level | not executed | SketchDither.WindowWritesFinishedPixel | SketchDither.CorrectedDitherImage |
