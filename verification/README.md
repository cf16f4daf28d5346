# ASCII art conversion core, modelled in Dafny

This project models the image-to-glyph pipeline of the `AsciiArtConverter`
class in `script.js`, and proves properties of it. `convertToAscii` sizes a
canvas from the configured character width and the source's aspect ratio.
It then runs three optional filters over the drawn RGBA buffer:

- background keying (`removeBackground`);
- a 3x3 sharpen kernel (`applySharpness`);
- a Sobel edge map (`applyEdgeDetection`).

Each pixel then goes through the tone pipeline: brightness, saturation,
posterisation, the dithering branch (`distributeError`), the `rgb(R, G, B)`
colour string, contrast, invert, and the choice of a glyph from the ramp. The
colour helpers `hexToRgb` and `rgbToAnsi`, and the frame loop of the animated
preview, are modelled too.

Modules, in dependency order:

- `Wrappers`: `Option` and `Result`.
- `Pixels`: RGBA buffers (`Image`), integer colours, and the byte store of a
  `Uint8ClampedArray`. A store clamps to [0, 255], then rounds half to even.
- `Glyphs`: ramps as JavaScript strings, i.e. sequences of UTF-16 code units,
  and the built-in ramps.
- `Tone`: the per-pixel arithmetic on exact reals.
- `Dither`: `distributeError`.
- `Filters`: `removeBackground`, `applySharpness` and `applyEdgeDetection`.
  Each is a pure buffer-to-buffer function.
- `ColorText`: decimal text, the `rgb(...)` strings and the regular
  expression that reads them, `rgbToAnsi`, and `hexToRgb`.
- `Convert`: settings, sizing, the pixel loop (a reference definition
  `Render` and the loops as written, proved equal), `convertToAscii`, and
  the frame loop.

Some behaviours of the code are proved rather than assumed:

- **The dithering branch changes nothing.** The colour it re-posterises is
  already posterised, and posterisation is idempotent. So every error is
  zero, and `distributeError` stores each byte back unchanged. `DitherStep`
  proves this, and the pixel loop is then proved equal to a definition that
  has no dithering at all.
- **Ramps are indexed per UTF-16 code unit.** The emoji ramp has six
  characters but eleven code units, so some slots hold half of a surrogate
  pair (`EmojiRampSplitsSurrogates`).
- **Colour strings round-trip.** The colour string written for a cell is
  read back by the pattern in `rgbToAnsi` as the same three integers, for
  any `\s` run after the commas.
- **Edge strength is found without a square root.** The edge filter's stored
  byte `min(255, sqrt(m2))` is characterised by comparing squares, with
  round half to even (`ByteOfRoot`, `ByteOfRootIsStoredRoot`).

Three edge cases follow the code as written, not an idealised description
of it:

- A conversion whose canvas would have no pixels fails, so there is no
  empty result. A zero target width or a zero computed height reaches
  `getImageData` as 0, which throws an `IndexSizeError`. A zero-width source
  gives an aspect ratio of Infinity or NaN; `getImageData` receives that
  non-finite height and throws a `TypeError`. The model folds both into one
  error, `Convert.NoPixels`. Only the pixel loop on its own gives empty text
  for zero rows (`Convert.RenderNoRows`).
- The dithering taps are flat buffer offsets (+4, 4*width-4, 4*width,
  4*width+4 from the pixel) and are not checked against the row. At column
  0 the "lower-left" tap is the last pixel of the same row, and at the last
  column the "right" tap is the first pixel of the next row
  (`Dither.NearTapIsNeighbour`). The pixel loop only dithers when
  `x < width - 1`, so only the column-0 case is reached, and every error
  it spreads is zero (see above).
- The frame loop does not reject an empty list of frames. It returns an
  empty list.

## Model

| member | source | states |
|---|---|---|
| `Pixels.SqDist` | script.js:979-983 | the squared RGB distance is non-negative, and zero exactly when the two colours are equal |
| `Pixels.Blank` | script.js:935 | a new `ImageData` has the requested shape, and every channel, alpha included, is 0 |
| `Pixels.OffsetInRange` | script.js:864 | the offset `(y*width+x)*4+c` of an in-grid pixel lies inside the buffer; its channel is `c` and its pixel is `y*width+x` |
| `Pixels.DecodeIndex` | script.js:973 | every channel index of a buffer belongs to an in-grid pixel, whose column and row recover the index |
| `Pixels.ToByte` | script.js:954 | a value stored into a clamped byte array is a byte: 0 at or below 0, 255 at or above 255, otherwise within a half of the value, and a value exactly halfway between two bytes goes to the even one |
| `Pixels.ToByteOfByte` | script.js:1052-1054 | storing a whole byte value keeps it |
| `Tone.Clamp` | script.js:879-881 | the result is in [0, 255], is the input when the input is in range, and is the nearer bound otherwise |
| `Tone.Brighten` | script.js:870-872 | brightness clamps from above only: the result is at most 255 and at most the product, equals the product when that is at most 255, and is 255 when the product reaches 255 |
| `Tone.Luma` | script.js:875 | the weighted luma lies between the least and the greatest channel: some channel is at most it and some channel at least it |
| `Tone.LumaOfGrey` | script.js:875 | the luma weights sum to one, so a grey's luma is its level |
| `Tone.LumaInRange` | script.js:908 | the luma of an in-range colour is in [0, 255] |
| `Tone.Saturate` | script.js:875-881 | after saturation and its clamp every channel is in [0, 255] |
| `Tone.SaturateOne` | script.js:876-878 | saturation 1 leaves an in-range colour unchanged |
| `Tone.SaturateZero` | script.js:876-878 | saturation 0 turns a colour into the grey of its luma |
| `Tone.ScaleIsQuotient` | script.js:885 | scaling by 1/256 and then by the level count is division by the quantum `256/2^bitDepth` |
| `Tone.Posterize` | script.js:884-887 | the posterised channel is a whole multiple of the quantum, at most the input and more than the input minus one quantum |
| `Tone.PosterizeUnique` | script.js:884-887 | any multiple of the quantum within one quantum below the input is the posterised value, so the contract determines it |
| `Tone.PosterizeFixesMultiples` | script.js:884-887 | k whole quanta posterise to themselves, for every integer k |
| `Tone.PosterizeIdempotent` | script.js:892-894 | posterising twice is posterising once |
| `Tone.PosterizeInRange` | script.js:884-887 | an in-range channel posterises into [0, 255] |
| `Tone.PosterizeOneBit` | script.js:884-887 | with one bit per channel only 0 and 128 remain |
| `Tone.PosterizeEightBits` | script.js:884-887 | with eight bits per channel posterisation is the floor |
| `Tone.ToneColor` | script.js:865-887 | brightness, saturation and posterisation give an in-range colour whose channels are multiples of the quantum |
| `Tone.ToneColorNeutral` | script.js:870-887 | brightness 1, saturation 1 and eight bits keep a byte colour as it is |
| `Tone.ContrastGray` | script.js:911-912 | the contrasted grey is in [0, 255] |
| `Tone.ContrastOne` | script.js:911-912 | contrast 1 keeps an in-range grey |
| `Tone.CellGray` | script.js:908-917 | the grey that selects a glyph is in [0, 255], with invert on or off |
| `Tone.GlyphIndex` | script.js:920 | for any non-empty ramp and any grey in [0, 255] the slot is in [0, n-1] |
| `Tone.GlyphIndexBand` | script.js:920 | the slot i is the one with `i*255 <= g*(n-1) < (i+1)*255`; grey 255 takes the last slot and grey 0 the first |
| `Tone.GlyphIndexMonotone` | script.js:920 | a lighter grey never selects an earlier slot |
| `Tone.GlyphIndexSingle` | script.js:920 | a one-slot ramp always gives slot 0 |
| `Tone.InvertLaw` | script.js:915-920 | with invert on, the grey is 255 minus the grey with invert off, and the slot is the slot of that reflected grey |
| `Glyphs.Utf16OfBmp` | script.js:8 | text inside the Basic Multilingual Plane has exactly one code unit per character, equal to the character's code |
| `Glyphs.Utf16` | script.js:5-15 | a string indexed per UTF-16 code unit has at least one and at most two units per character |
| `Glyphs.StyleRamp` | script.js:5-14 | every built-in style's ramp has at least three code units, so `length - 1` is positive |
| `Glyphs.CustomRamp` | script.js:157-160 | the custom ramp is never empty: the typed text, as code units, when there is any, and exactly the standard ramp when the text is empty |
| `Glyphs.EmojiRampSplitsSurrogates` | script.js:14 | the emoji ramp is six characters but eleven code units, and slots 1 and 2 hold the two halves of one surrogate pair |
| `Dither.AddAt` | script.js:1052-1054 | adding to one index of a clamped array keeps its length and every other index, and stores a byte there; an index outside the array changes nothing |
| `Dither.NearTapIsNeighbour` | script.js:1042-1050 | a channel reached by one of the four taps is an RGB channel of the slot at +4, 4*width-4, 4*width or 4*width+4 from the pixel: the right, lower-left, lower and lower-right neighbours in interior columns, but at column 0 the -4+4*width slot is the last pixel of the same row and at the last column +4 wraps to the next row |
| `Dither.NeighbourIsNotAlpha` | script.js:1052-1054 | for a pixel-aligned offset, no channel the taps write is an alpha channel |
| `Dither.Spread` | script.js:1049-1056 | applying the taps in order keeps the array's length, and any index it changes belongs to one of the taps |
| `Dither.DistributeError` | script.js:1040-1057 | the array keeps its length; only RGB channels of the four tap slots (see the row above) can change; alpha channels never do |
| `Dither.SpreadZero` | script.js:1049-1056 | spreading a zero error over a byte array leaves it unchanged |
| `Dither.DistributeZero` | script.js:1040-1057 | `distributeError` with all three errors zero leaves a byte array unchanged |
| `Filters.KeyPixel` | script.js:974-991 | one keying step keeps the buffer's length; a pixel within tolerance gets the replacement RGB and alpha 255; a pixel outside it leaves the buffer as it was |
| `Filters.KeyPixelEffect` | script.js:974-991 | one keying step replaces the RGB and alpha of a pixel within tolerance, leaves a pixel outside it unchanged, touches no other pixel and keeps bytes bytes |
| `Filters.KeyFrom` | script.js:973-992 | the keying loop from a pixel onward keeps earlier pixels; each later pixel within tolerance gets the replacement RGB and alpha 255; every other pixel keeps all four channels |
| `Filters.RemoveBackground` | script.js:962-995 | the buffer keeps its shape; a pixel within `tolerance*2.55` of the target gets the replacement RGB and alpha 255; every other pixel keeps all four channels |
| `Filters.ToleranceZeroIsExact` | script.js:986 | with tolerance 0 a pixel is keyed exactly when it equals the target |
| `Filters.KeyingRadiusExample` | script.js:979-986 | tolerance 10 (a radius of 25.5) keys a pixel at distance 5 from white and keeps one at distance 50 |
| `Filters.Kernel` | script.js:937-941 | the sharpen kernel has nine taps summing to 1, zero corners and `-amount` on the four edge taps |
| `Filters.KernelSum` | script.js:945-952 | with amount 0 the taps before the centre (the first four) contribute nothing |
| `Filters.KernelSumZeroAmount` | script.js:937-952 | with amount 0, the sum of the first k taps is the pixel's own channel for every k from the centre tap (the fifth) on |
| `Filters.KernelStep` | script.js:947-951 | one more turn of the tap loop adds tap k - 1 to the running sum |
| `Filters.KernelSumUnrolled` | script.js:945-952 | the nine-tap sum is taps 0 to 8 added in row-major order |
| `Filters.KernelCorners` | script.js:937-941 | the four corner taps contribute 0 whatever the neighbours hold |
| `Filters.KernelUpperLeftTaps` | script.js:937-951 | taps 1 and 3 are the upper and left neighbours' channel times `-amount` |
| `Filters.KernelCentreTap` | script.js:937-951 | tap 4 is the pixel's own channel times `1 + 4 * amount` |
| `Filters.KernelRightLowerTaps` | script.js:937-951 | taps 5 and 7 are the right and lower neighbours' channel times `-amount` |
| `Filters.KernelSumNine` | script.js:937-952 | for every amount, the nine-tap sum is `(1 + 4a)` times the centre less `a` times each of the upper, left, right and lower neighbours |
| `Filters.PixelOfOffset` | script.js:949 | the flat index `(y * width + x) * 4 + c` of an in-range pixel lies in the buffer and decodes back to column x, row y and channel c |
| `Filters.SharpenInterior` | script.js:943-954 | for every amount, colour channel c of interior pixel (x, y) is the five-point sum clamped to [0, 255] and stored as a byte |
| `Filters.SharpenAt` | script.js:943-957 | every channel the sharpen filter leaves is a byte |
| `Filters.Sharpen` | script.js:931-960 | same-size buffer of bytes; every border-ring channel, alpha included, is 0; interior alpha is 255 |
| `Filters.SharpenZeroKeepsInterior` | script.js:937-954 | sharpening by 0 reproduces every interior RGB channel |
| `Filters.NoInteriorWhenSmall` | script.js:943-944 | a buffer narrower or shorter than three pixels has no interior pixel |
| `Filters.SharpenSmallIsBlank` | script.js:931-960 | sharpening a buffer narrower or shorter than three pixels gives all zeros |
| `Filters.Near` | script.js:1018-1025 | a neighbour's channel read from a byte buffer is a byte |
| `Filters.SobelX` | script.js:1027 | the horizontal response over 3 lies in [-340, 340] and is 0 when the left column equals the right column |
| `Filters.SobelY` | script.js:1028 | the vertical response over 3 lies in [-340, 340] and is 0 when the top row equals the bottom row |
| `Filters.GradientSquared` | script.js:1015-1031 | the squared gradient magnitude is non-negative |
| `Filters.ScanRoot` | script.js:1031-1033 | the scan stops at the byte n whose rounding band holds the root: it does not round to below n and does not round past n |
| `Filters.ByteOfRoot` | script.js:1031-1033 | the stored edge value is a byte n with `sqrt(m2)` rounding to n, compared on squares |
| `Filters.StoredByteBand` | script.js:1033 | a byte n within a half of `min(255, s)`, ties going to the even side, is the stored byte |
| `Filters.RootAboveBand` | script.js:1031-1033 | not rounding past n-1 puts the root at or above n - 0.5 |
| `Filters.RootBelowBand` | script.js:1031-1033 | stopping at n puts the root at or below n + 0.5 |
| `Filters.ByteOfRootIsStoredRoot` | script.js:1031-1033 | for the non-negative root s of m2, the scan's byte is the byte a clamped array stores for `Math.min(255, s)` |
| `Filters.EdgeAt` | script.js:1013-1035 | every channel of the edge buffer is a byte |
| `Filters.EdgeMap` | script.js:1013-1035 | the border ring is 0 and interior alpha is 255 |
| `Filters.EdgeSamePixel` | script.js:1033 | the three colour channels of a pixel carry the same edge value |
| `Filters.EdgeAtInterior` | script.js:1031-1033 | for the non-negative root s of the squared gradient at interior pixel (x, y), each colour channel's edge value is the byte stored for `Math.min(255, s)` |
| `Filters.EdgeStoresRoot` | script.js:1013-1035 | the edge buffer holds, in each colour channel of interior pixel (x, y), the byte stored for `Math.min(255, s)` where s is the gradient magnitude |
| `Filters.EdgeDetect` | script.js:1006-1038 | same-size buffer of bytes; border ring all zero; interior alpha 255; green and blue equal red in every pixel |
| `Filters.FlatChannel` | script.js:1017-1028 | both Sobel responses of a channel vanish on a buffer of one colour |
| `Filters.EdgeOfFlatAt` | script.js:1031-1033 | a buffer of one colour has edge value 0 on every interior colour channel |
| `Filters.EdgeOfFlatImage` | script.js:1006-1038 | a buffer of one colour gives an edge map whose interior colour channels are all 0 |
| `Filters.EdgeSmallIsBlank` | script.js:1006-1038 | a buffer narrower or shorter than three pixels gives all zeros |
| `ColorText.Decimal` | script.js:904 | the decimal text of a number is a non-empty run of digits |
| `ColorText.ParseDecimal` | script.js:499-501 | the value of a digit run ends in its last digit: the value mod 10 is that digit's value |
| `ColorText.ParseDecimalNonNegative` | script.js:499-501 | a run of digits reads as a non-negative number |
| `ColorText.DecimalRoundTrip` | script.js:499-501 | `parseInt` of the decimal text of n is n |
| `ColorText.DigitRun` | script.js:496 | `\d+` consumes a run of digits that stays inside the string |
| `ColorText.SpaceRun` | script.js:496 | `\s*` consumes a run of spaces that stays inside the string |
| `ColorText.DigitRunExact` | script.js:496 | `\d+` at i consumes exactly the n digits there when the next character is not a digit or the string ends |
| `ColorText.SpaceRunExact` | script.js:496 | `\s*` at i consumes exactly the n spaces there when the next character is not a space or the string ends |
| `ColorText.Field` | script.js:496 | a matched `(\d+)` is followed by its closing character, and the match resumes after that character |
| `ColorText.NextField` | script.js:496 | `,\s*(\d+)` followed by its closing character resumes after it |
| `ColorText.MatchRgbAt` | script.js:496 | an attempt succeeds only where `rgb(` opens and at least the ten characters of `rgb(0,0,0)` remain |
| `ColorText.SearchFrom` | script.js:496 | the search reports a position inside the string |
| `ColorText.SearchFromNone` | script.js:496-497 | the search finds nothing only when the pattern matches at no later position |
| `ColorText.SearchFromLeftmost` | script.js:496 | the search stops at a position where the pattern matches, and it matches nowhere earlier |
| `ColorText.MatchRgb` | script.js:496-497 | `match` gives null exactly when the pattern matches at no position of the string |
| `ColorText.LaidOutMatchesAtStart` | script.js:496-501 | a string laid out as `rgb(` digits, separator, digits, separator, digits `)` matches at its start with the three parsed numbers |
| `ColorText.FormatRgb` | script.js:904 | the text opens with `rgb(`, closes with `)` and is at least eight characters plus two separators long |
| `ColorText.CellColor` | script.js:904 | a cell's colour string opens with `rgb(`, closes with `)` and is at least the twelve characters of `rgb(0, 0, 0)` |
| `ColorText.FormatRgbRoundTrip` | script.js:496-501 | formatting three non-negative integers with any comma-and-spaces separator, then matching, gives them back |
| `ColorText.CellColorRoundTrip` | script.js:904 | a cell's colour string reads back as the cell's colour |
| `ColorText.DecimalLiterals` | script.js:505-508 | the decimal texts of the palette channels 0, 128, 192 and 255 |
| `ColorText.PaletteEntry` | script.js:504-509 | each palette string is the compact `rgb(R,G,B)` text of its colour |
| `ColorText.PaletteParses` | script.js:515-518 | each palette string is matched by the pattern and reads as its colour |
| `ColorText.PaletteDistinct` | script.js:504-509 | the sixteen palette colours are distinct |
| `ColorText.FirstNearestUnique` | script.js:511-525 | there is at most one first-nearest palette entry |
| `ColorText.NearestFrom` | script.js:511-525 | the `dist < minDist` scan ends on the first entry at minimum distance |
| `ColorText.Nearest` | script.js:511-525 | the full scan, started on entry 0, gives the first entry at minimum distance |
| `ColorText.NearestIsFirstNearest` | script.js:511-525 | the scan's answer is the one first-nearest entry |
| `ColorText.RgbToAnsi` | script.js:495-528 | an unmatched string comes back unchanged; otherwise the result is the palette string of the first entry nearest to the matched colour |
| `ColorText.AnsiFixesPalette` | script.js:495-528 | a palette string maps to itself |
| `ColorText.AnsiOfCellColor` | script.js:495-528 | a cell's colour string maps to the palette string of the first entry nearest to the cell's colour |
| `ColorText.AnsiOfPaletteColor` | script.js:495-528 | a cell coloured exactly like palette entry k maps to that entry's string |
| `ColorText.NearestOfBlack` | script.js:511-525 | black is nearest to entry 0 |
| `ColorText.NearestOfNearRed` | script.js:511-525 | (254, 1, 1) is nearest to bright red, entry 9 |
| `ColorText.NearRedFar` | script.js:505-508 | every entry but bright red is more than distance 3 from (254, 1, 1) |
| `ColorText.AnsiOfBlack` | script.js:495-528 | black's colour string maps to `rgb(0,0,0)` |
| `ColorText.AnsiOfNearRed` | script.js:495-528 | the colour string of (254, 1, 1) maps to `rgb(255,0,0)` |
| `ColorText.HexValue` | script.js:1000-1002 | a hex digit's value is in 0..15 |
| `ColorText.HexToRgb` | script.js:997-1004 | the result is a byte colour, and a string that is not six hex digits after an optional `#` gives white |
| `ColorText.HexRoundTrip` | script.js:997-1004 | the six-digit hex text of a byte colour, with or without `#` and with any case for each digit, mixed case included, parses back to the colour |
| `ColorText.HexExamples` | script.js:997-1004 | `#ffffff` is white; `#00FF00` and `00ff00` are green; `#aAbBcC` is (170, 187, 204); `#fff` and a non-hex digit give white |
| `Convert.CanvasHeight` | script.js:829-834 | the canvas height is `width*srcHeight / (2*srcWidth)` rounded down, and 0 for a zero-width source |
| `Convert.TargetHeight` | script.js:829-831 | `Math.floor(width * (h/w) * 0.5)` on exact reals is non-negative and is the integer quotient `width*h / (2*w)` |
| `Convert.FloorOfHalfRatio` | script.js:831 | the floor of `width * (h/w) * 0.5` is `width*h / (2*w)` |
| `Convert.TargetHeightBand` | script.js:829-831 | the height is h exactly when `2*w*h <= width*srcHeight < 2*w*(h+1)` |
| `Convert.CanvasHeightExamples` | script.js:829-834 | 80 columns of a square image give 40 rows; a zero-width source gives 0 |
| `Convert.Filtered` | script.js:841-854 | the filter stage keeps the buffer's shape and bytes |
| `Convert.FilteredOff` | script.js:841-854 | with every filter switched off the buffer reaches the pixel loop as drawn |
| `Convert.FilteredEdgeIsGrey` | script.js:852-854 | with edge detection on, every pixel reaching the loop has equal red, green and blue |
| `Convert.PixelInside` | script.js:864-867 | the pixel at (x, y) and its four channels lie inside the buffer |
| `Convert.CellTone` | script.js:864-887 | the tone of a cell is in range |
| `Convert.Floored` | script.js:904 | the floored channels shown in the colour string are bytes |
| `Convert.GlyphOf` | script.js:919-921 | a cell's glyph is a code unit of the ramp |
| `Convert.GlyphRow` | script.js:863-922 | a glyph row has one glyph per column |
| `Convert.ColorRow` | script.js:863-905 | a colour row has one string per column |
| `Convert.GlyphRows` | script.js:859-925 | there is one glyph row per output row |
| `Convert.ColorRows` | script.js:859-925 | there is one colour row per output row |
| `Convert.Render` | script.js:859-925 | the colour grid has one row per output row |
| `Convert.Lines` | script.js:923 | n appended rows give at least n code units, and the text ends with a newline once a row has been appended |
| `Convert.LinesLength` | script.js:923 | n rows of w glyphs, each ended by a newline, take `n*(w+1)` code units |
| `Convert.LinesAt` | script.js:923 | row y's glyphs and then its newline sit at `y*(w+1)` onward |
| `Convert.RenderTextAt` | script.js:921-923 | column x of row y of the text is the glyph of pixel (x, y), and column `width` is the newline |
| `Convert.RenderShape` | script.js:859-925 | the text is `height` rows of `width` glyphs, each ended by `'\n'`, with the glyph of each pixel in place; the colour grid is `height` by `width` and holds each pixel's `rgb(R, G, B)` |
| `Convert.RenderIsShaped` | script.js:859-925 | the rendering has the full shape: `height*(width+1)` code units, the glyph of pixel (x, y) at `y*(width+1)+x`, a newline at column `width`, and a `height` by `width` colour grid holding each pixel's `rgb(R, G, B)` |
| `Convert.RenderUsesRamp` | script.js:921-923 | every code unit of the text is a glyph of the ramp or a newline |
| `Convert.GlyphTextUsesRamp` | script.js:921-923 | every code unit of the joined glyph rows is a glyph of the ramp or a newline |
| `Convert.LinesDrawFrom` | script.js:923 | joining rows of equal width drawn from an alphabet gives text of that alphabet and newlines |
| `Convert.RenderNoRows` | script.js:859-925 | zero output rows give empty text and an empty colour grid |
| `Convert.SingleGlyphRamp` | script.js:920-921 | a one-glyph ramp draws that glyph for every tone |
| `Convert.InvertedGlyph` | script.js:915-921 | with invert on, a cell shows the glyph that 255 minus its uninverted grey selects |
| `Convert.RePosterizeFixes` | script.js:891-894 | re-posterising the colour that brightness, saturation and posterisation give any pixel gives that colour back, so `newR == oldR` and likewise for G and B |
| `Convert.DitherStep` | script.js:889-901 | for any pixel, settings, offset and width, the dithering branch leaves a byte buffer exactly as it was |
| `Convert.ConvertCell` | script.js:864-921 | one pass of the inner loop gives the pixel's glyph and colour string and leaves the buffer unchanged |
| `Convert.ConvertRow` | script.js:863-922 | the inner loop builds row y's glyphs and colour strings and leaves the buffer unchanged |
| `Convert.ConvertPixels` | script.js:859-925 | the nested loops, dithering included, build exactly the reference rendering |
| `Convert.Convert` | script.js:824-928 | a conversion fails exactly when the canvas would have zero width or zero height; otherwise the text is `height*(width+1)` code units with every pixel's glyph in its place and a newline ending each row, and the colour grid is `height` by `width` with every pixel's `rgb(R, G, B)` |
| `Convert.ConvertToAscii` | script.js:824-928 | sizing, filters and the pixel loop as written give the reference conversion |
| `Convert.WhitePixel` | script.js:864-867 | a white buffer reads white at every pixel |
| `Convert.WhiteTone` | script.js:870-887 | the default settings keep white white |
| `Convert.WhiteGlyph` | script.js:908-921 | under the default settings white selects the last glyph of the ramp |
| `Convert.WhiteCell` | script.js:864-921 | under the default settings a white pixel keeps its tone and selects the ramp's last glyph |
| `Convert.TwoByOneText` | script.js:859-925 | a 2 x 1 buffer renders as its two glyphs and a newline |
| `Convert.WhiteRow` | script.js:859-925 | a white 2 x 1 buffer under the default settings renders as the ramp's brightest glyph twice and a newline |
| `Convert.SimpleIsBmp` | script.js:8 | the simple ramp is ten characters, all in the Basic Multilingual Plane, ending in `@` |
| `Convert.SimpleBrightest` | script.js:8 | the simple ramp is ten code units and its brightest is `@` |
| `Convert.NormalizeDelay` | script.js:367 | an absent or zero delay becomes 100 centiseconds, and any other delay is kept |
| `Convert.NormalizeDelayIdempotent` | script.js:367 | normalising a normalised delay changes nothing |
| `Convert.ConvertFrames` | script.js:409-417 | the frame loop succeeds exactly when every frame converts; it then gives one result per frame, in order, each with its frame's delay |

## Left out

- DOM, file and storage glue is not modelled: event listeners, image loading, the gallery, the modal, clipboard, downloads, HTML export and local storage.
- `canvas.drawImage` resampling is the browser's. The drawn RGBA buffer is an input to `Convert.Convert`.
- GIF decoding uses a foreign library and is not modelled. Only the `delay || 100` rule is (`Convert.NormalizeDelay`).
- Timer-driven animation playback is not modelled: it is timers and concurrency.
- IEEE-754 doubles are replaced by exact reals. Rounding of `0.299`, `2.55` and the divisions is therefore not modelled.
- `Math.sqrt` is not modelled. The keying test compares squared distances, and the edge byte is characterised on squares (`Filters.ByteOfRoot`).
- `rgbToAnsi`'s `Math.sqrt` and `Math.pow` are replaced by squared integer distances. The square root is increasing, so the chosen entry is the same.
- `escapeHtml`, `formatFileSize` and the displayed dimensions `floor(width*0.5)` are UI text, not part of the conversion.
- The colour-mode rendering of the colour grid (monochrome, custom, true colour, ANSI) is HTML building. Only the quantiser `rgbToAnsi` is modelled.
- Convert.Convert: requires a non-empty ramp, as do the pixel-loop members. The ramp the code uses is never empty: the built-in ramps are non-empty, and an empty custom ramp falls back to the standard one (`Glyphs.CustomRamp`).
- Filters.RemoveBackground: requires a byte replacement colour. Its only source, `hexToRgb`, always gives one.
- Canvas size limits are not modelled. Only the zero-size case, where `getImageData` throws, is.
- `parseInt` in `rgbToAnsi` is modelled on digit runs as unbounded integers. It does not lose precision on very long runs as a double would.
- ColorText.HexToRgb: the contract states only the fallback direction. The accepting direction is stated by `ColorText.HexRoundTrip` over every colour, every `#` choice and every per-digit choice of case.
- Filters.Sharpen: the contract states the border ring, the interior alpha and the byte range. The value in each interior colour channel, for every amount, is stated by `Filters.SharpenInterior`.
- Filters.EdgeDetect: the contract states the border ring, the interior alpha, the byte range and the equal colour channels. The value in each interior colour channel is stated by `Filters.EdgeStoresRoot`.
- Filters.GradientSquared: the contract states only non-negativity. What the edge filter stores from it, channel by channel, is stated by `Filters.EdgeStoresRoot`.
