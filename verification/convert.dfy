/** `convertToAscii`: sizing the canvas, the filter stage and the pixel loop
    that turns an RGBA buffer into glyph rows and a grid of colour strings;
    and the frame loop of an animated preview. */
module Convert {
  import opened Wrappers
  import opened Pixels
  import opened Glyphs
  import opened Tone
  import opened Dither
  import opened Filters
  import opened ColorText

  /** The converter's settings that reach the pipeline. */
  datatype Settings = Settings(
    width: nat,
    contrast: real,
    brightness: real,
    saturation: real,
    sharpness: real,
    bitDepth: nat,
    invert: bool,
    edgeDetect: bool,
    dithering: bool,
    removeBackground: bool,
    targetBackgroundColor: string,
    backgroundColor: string,
    backgroundTolerance: real)

  /** The settings a fresh converter starts with. */
  const Defaults: Settings := Settings(80, 1.0, 1.0, 1.0, 0.0, 8, false, false, false, false,
                                       "#ffffff", "#000000", 30.0)

  /** What one conversion returns: the text, rows ended by a newline, and
      one colour string per glyph. */
  datatype Ascii = Ascii(text: seq<CodeUnit>, colors: seq<seq<string>>)

  /** Reading back a canvas that has no pixels throws. A zero width or
      height reaches `getImageData` as 0 and throws an `IndexSizeError`; a
      zero-width source reaches it as a non-finite height and throws a
      `TypeError`. The model folds both into one error. */
  datatype CanvasError = NoPixels

  // ---------------------------------------------------------------------
  // Sizing

  /** `Math.floor(width * (srcHeight / srcWidth) * 0.5)`: half the aspect
      ratio, since a glyph is about twice as tall as it is wide. */
  function TargetHeight(width: nat, srcWidth: nat, srcHeight: nat): (h: int)
    requires srcWidth > 0
    ensures h >= 0
    ensures h == width * srcHeight / (2 * srcWidth)
  {
    FloorOfHalfRatio(width, srcWidth, srcHeight);
    ((width as real) * (srcHeight as real / srcWidth as real) * 0.5).Floor
  }

  /** The canvas height that assignment leaves. A zero-width source makes the
      ratio Infinity or NaN, and a canvas dimension set to either becomes 0;
      `getImageData` still receives the non-finite value itself and throws,
      so `Convert` fails there as it does for a zero height. */
  function CanvasHeight(width: nat, srcWidth: nat, srcHeight: nat): (h: nat)
    ensures srcWidth == 0 ==> h == 0
    ensures srcWidth > 0 ==> h == width * srcHeight / (2 * srcWidth)
  {
    if srcWidth == 0 then 0
    else
      TargetHeight(width, srcWidth, srcHeight)
  }

  /** The floor of the real ratio is the integer quotient
      `width * srcHeight / (2 * srcWidth)`. */
  lemma FloorOfHalfRatio(width: nat, srcWidth: nat, srcHeight: nat)
    requires srcWidth > 0
    ensures ((width as real) * (srcHeight as real / srcWidth as real) * 0.5).Floor
            == width * srcHeight / (2 * srcWidth)
  {
    var n := width * srcHeight;
    var d := 2 * srcWidth;
    var q := n / d;
    var ratio := srcHeight as real / srcWidth as real;
    var x := (width as real) * ratio * 0.5;
    var dr := d as real;
    assert ratio * (srcWidth as real) == srcHeight as real;
    calc {
      x * dr;
      (width as real) * (ratio * (srcWidth as real));
      (width as real) * (srcHeight as real);
      n as real;
    }
    assert (q as real) * dr <= x * dr < ((q + 1) as real) * dr by {
      assert q * d <= n < (q + 1) * d;
    }
    if x < q as real {
      MulRightStrict(x, q as real, dr);
    }
    if x >= (q + 1) as real {
      MulRightMonotone((q + 1) as real, x, dr);
    }
  }

  /** The output has h rows exactly when
      2 * srcWidth * h <= width * srcHeight < 2 * srcWidth * (h + 1). */
  lemma TargetHeightBand(width: nat, srcWidth: nat, srcHeight: nat, h: int)
    requires srcWidth > 0
    ensures h == CanvasHeight(width, srcWidth, srcHeight) <==>
            2 * srcWidth * h <= width * srcHeight < 2 * srcWidth * (h + 1)
  {
    var n := width * srcHeight;
    var d := 2 * srcWidth;
    var q := n / d;
    if d * h <= n < d * (h + 1) {
      if h < q {
        MulMonotone(h + 1, q, d);
      } else if h > q {
        MulMonotone(q + 1, h, d);
      }
    }
  }

  /** 80 columns of a square image give 40 rows; 100 columns of an image twice
      as tall as wide give 100 rows; 10 columns of a 3 x 1 image give 1 row. */
  lemma CanvasHeightExamples()
    ensures CanvasHeight(80, 300, 300) == 40
    ensures CanvasHeight(100, 50, 100) == 100
    ensures CanvasHeight(10, 3, 1) == 1
    ensures CanvasHeight(80, 0, 300) == 0
  {
  }

  // ---------------------------------------------------------------------
  // Filter stage

  /** Background keying, then sharpening when the amount is positive, then
      edge detection, each switched by its setting. */
  function Filtered(s: Settings, img: Image): (out: Image)
    requires img.Valid()
    ensures out.Valid() && out.width == img.width && out.height == img.height
  {
    var keyed := if s.removeBackground
      then RemoveBackground(img, HexToRgb(s.targetBackgroundColor), HexToRgb(s.backgroundColor), s.backgroundTolerance)
      else img;
    var sharp := if s.sharpness > 0.0 then Sharpen(keyed, s.sharpness) else keyed;
    if s.edgeDetect then EdgeDetect(sharp) else sharp
  }

  /** With every filter switched off the buffer reaches the pixel loop as drawn. */
  lemma FilteredOff(s: Settings, img: Image)
    requires img.Valid()
    requires !s.removeBackground && s.sharpness <= 0.0 && !s.edgeDetect
    ensures Filtered(s, img) == img
  {
  }

  /** With edge detection on, every pixel reaching the loop is grey. */
  lemma FilteredEdgeIsGrey(s: Settings, img: Image, p: nat)
    requires img.Valid() && s.edgeDetect
    requires p < img.width * img.height
    ensures var out := Filtered(s, img);
      out.data[4 * p] == out.data[4 * p + 1] == out.data[4 * p + 2]
  {
    var out := Filtered(s, img);
    assert 4 * p + 2 < |out.data|;
    assert (4 * p + 1) % 4 == 1 && (4 * p + 2) % 4 == 2;
  }

  // ---------------------------------------------------------------------
  // The pixel loop, as a reference definition

  lemma PixelInside(width: nat, height: nat, x: nat, y: nat)
    requires x < width && y < height
    ensures y * width + x < width * height
    ensures 4 * (y * width + x) + 4 <= 4 * (width * height)
  {
    OffsetInRange(width, height, x, y, 3);
  }

  /** The tone of the pixel at (x, y): brightness, saturation, posterisation. */
  function CellTone(s: Settings, img: Image, x: nat, y: nat): (t: Shade)
    requires img.Valid() && x < img.width && y < img.height
    ensures t.InRange()
  {
    PixelInside(img.width, img.height, x, y);
    ToneColor(PixelRgb(img.data, y * img.width + x), s.brightness, s.saturation, s.bitDepth)
  }

  /** `Math.floor` of each channel, the integers the colour string shows. */
  function Floored(t: Shade): (c: Rgb)
    requires t.InRange()
    ensures c.IsBytes()
  {
    Rgb(t.r.Floor, t.g.Floor, t.b.Floor)
  }

  /** The glyph a tone maps to. */
  function GlyphOf(s: Settings, ramp: seq<CodeUnit>, t: Shade): (u: CodeUnit)
    requires |ramp| >= 1
    ensures u in ramp
  {
    ramp[GlyphIndex(CellGray(t, s.contrast, s.invert), |ramp|)]
  }

  function GlyphRow(s: Settings, ramp: seq<CodeUnit>, img: Image, y: nat): (row: seq<CodeUnit>)
    requires img.Valid() && |ramp| >= 1 && y < img.height
    ensures |row| == img.width
  {
    seq(img.width, x requires 0 <= x < img.width => GlyphOf(s, ramp, CellTone(s, img, x, y)))
  }

  function ColorRow(s: Settings, img: Image, y: nat): (row: seq<string>)
    requires img.Valid() && y < img.height
    ensures |row| == img.width
  {
    seq(img.width, x requires 0 <= x < img.width => CellColor(Floored(CellTone(s, img, x, y))))
  }

  function GlyphRows(s: Settings, ramp: seq<CodeUnit>, img: Image): (rows: seq<seq<CodeUnit>>)
    requires img.Valid() && |ramp| >= 1
    ensures |rows| == img.height
  {
    seq(img.height, y requires 0 <= y < img.height => GlyphRow(s, ramp, img, y))
  }

  function ColorRows(s: Settings, img: Image): (rows: seq<seq<string>>)
    requires img.Valid()
    ensures |rows| == img.height
  {
    seq(img.height, y requires 0 <= y < img.height => ColorRow(s, img, y))
  }

  /** `asciiArt += row + '\n'` over the first n rows. */
  function Lines(rows: seq<seq<CodeUnit>>, n: nat): (text: seq<CodeUnit>)
    requires n <= |rows|
    ensures |text| >= n
    ensures n > 0 ==> text[|text| - 1] == Newline
  {
    if n == 0 then [] else Lines(rows, n - 1) + rows[n - 1] + [Newline]
  }

  /** The text and colour grid the pixel loop builds from an already
      filtered buffer. */
  function Render(s: Settings, ramp: seq<CodeUnit>, img: Image): (out: Ascii)
    requires img.Valid() && |ramp| >= 1
    ensures |out.colors| == img.height
  {
    Ascii(Lines(GlyphRows(s, ramp, img), img.height), ColorRows(s, img))
  }

  /** Where column x of row y lands in the text: each row takes its glyphs
      and one newline. */
  function Pos(w: nat, x: int, y: int): int {
    y * (w + 1) + x
  }

  predicate AllWidth(rows: seq<seq<CodeUnit>>, w: nat) {
    forall y | 0 <= y < |rows| :: |rows[y]| == w
  }

  lemma {:induction false} LinesLength(rows: seq<seq<CodeUnit>>, w: nat, n: nat)
    requires AllWidth(rows, w) && n <= |rows|
    ensures |Lines(rows, n)| == n * (w + 1)
  {
    if n > 0 {
      LinesLength(rows, w, n - 1);
    }
  }

  /** Row y of the text holds rows[y] and then a newline. */
  lemma {:induction false} LinesAt(rows: seq<seq<CodeUnit>>, w: nat, n: nat, y: nat, x: nat)
    requires AllWidth(rows, w) && n <= |rows|
    requires y < n && x <= w
    ensures Pos(w, x, y) < |Lines(rows, n)|
    ensures Lines(rows, n)[Pos(w, x, y)] == if x < w then rows[y][x] else Newline
  {
    LinesLength(rows, w, n - 1);
    if y < n - 1 {
      MulMonotone(y + 1, n - 1, w + 1);
      LinesAt(rows, w, n - 1, y, x);
    } else {
      assert Pos(w, x, y) == |Lines(rows, n - 1)| + x;
    }
  }

  /** Column x of row y of the text: the glyph of pixel (x, y), or the
      newline when x is the width. */
  lemma RenderTextAt(s: Settings, ramp: seq<CodeUnit>, img: Image, x: nat, y: nat)
    requires img.Valid() && |ramp| >= 1
    requires x <= img.width && y < img.height
    ensures var text := Render(s, ramp, img).text;
      && Pos(img.width, x, y) < |text|
      && text[Pos(img.width, x, y)] ==
         if x < img.width then GlyphOf(s, ramp, CellTone(s, img, x, y)) else Newline
  {
    var rows := GlyphRows(s, ramp, img);
    assert AllWidth(rows, img.width);
    LinesAt(rows, img.width, img.height, y, x);
    assert rows[y] == GlyphRow(s, ramp, img, y);
  }

  /** The result has one newline-terminated row of `width` glyphs per output
      row, the glyph at (x, y) is the one its pixel's tone selects, and the
      colour grid has the same rows and columns, holding each pixel's
      `rgb(R, G, B)`. */
  lemma RenderShape(s: Settings, ramp: seq<CodeUnit>, img: Image)
    requires img.Valid() && |ramp| >= 1
    ensures var out := Render(s, ramp, img);
      var w := img.width;
      && |out.text| == img.height * (w + 1)
      && (forall y, x | 0 <= y < img.height && 0 <= x <= w :: Pos(w, x, y) < |out.text|)
      && (forall y, x | 0 <= y < img.height && 0 <= x < w ::
            out.text[Pos(w, x, y)] == GlyphOf(s, ramp, CellTone(s, img, x, y)))
      && (forall y | 0 <= y < img.height :: out.text[Pos(w, w, y)] == Newline)
      && |out.colors| == img.height
      && (forall y | 0 <= y < img.height :: |out.colors[y]| == w)
      && (forall y, x | 0 <= y < img.height && 0 <= x < w ::
            out.colors[y][x] == CellColor(Floored(CellTone(s, img, x, y))))
  {
    var rows := GlyphRows(s, ramp, img);
    assert AllWidth(rows, img.width);
    LinesLength(rows, img.width, img.height);
    forall y, x | 0 <= y < img.height && 0 <= x <= img.width
      ensures Pos(img.width, x, y) < |Render(s, ramp, img).text|
      ensures Render(s, ramp, img).text[Pos(img.width, x, y)] ==
              if x < img.width then GlyphOf(s, ramp, CellTone(s, img, x, y)) else Newline
    {
      RenderTextAt(s, ramp, img, x, y);
    }
  }

  /** `out` has the shape the pixel loop gives a buffer: one row of `width`
      glyphs and a newline per buffer row, the glyph at (x, y) being the one
      pixel (x, y) selects, and a colour grid of the same rows and columns
      holding each pixel's `rgb(R, G, B)`. */
  predicate Shaped(s: Settings, ramp: seq<CodeUnit>, img: Image, out: Ascii)
    requires img.Valid() && |ramp| >= 1
  {
    var w := img.width;
    && |out.text| == img.height * (w + 1)
    && (forall y, x | 0 <= y < img.height && 0 <= x <= w ::
          && Pos(w, x, y) < |out.text|
          && out.text[Pos(w, x, y)] == if x < w then GlyphOf(s, ramp, CellTone(s, img, x, y)) else Newline)
    && |out.colors| == img.height
    && (forall y | 0 <= y < img.height :: |out.colors[y]| == w)
    && (forall y, x | 0 <= y < img.height && 0 <= x < w && |out.colors[y]| == w ::
          out.colors[y][x] == CellColor(Floored(CellTone(s, img, x, y))))
  }

  lemma RenderIsShaped(s: Settings, ramp: seq<CodeUnit>, img: Image)
    requires img.Valid() && |ramp| >= 1
    ensures Shaped(s, ramp, img, Render(s, ramp, img))
  {
    RenderShape(s, ramp, img);
  }

  /** Every character of the text is a glyph of the ramp or a row end. */
  lemma RenderUsesRamp(s: Settings, ramp: seq<CodeUnit>, img: Image, i: nat)
    requires img.Valid() && |ramp| >= 1
    requires i < |Render(s, ramp, img).text|
    ensures var u := Render(s, ramp, img).text[i];
      u == Newline || u in ramp
  {
    GlyphTextUsesRamp(s, ramp, img, i);
  }

  lemma GlyphTextUsesRamp(s: Settings, ramp: seq<CodeUnit>, img: Image, i: nat)
    requires img.Valid() && |ramp| >= 1
    requires i < |Lines(GlyphRows(s, ramp, img), img.height)|
    ensures var u := Lines(GlyphRows(s, ramp, img), img.height)[i];
      u == Newline || u in ramp
  {
    var rows := GlyphRows(s, ramp, img);
    assert AllWidth(rows, img.width);
    forall y, x | 0 <= y < |rows| && 0 <= x < |rows[y]| ensures rows[y][x] in ramp {
      assert rows[y] == GlyphRow(s, ramp, img, y);
    }
    LinesDrawFrom(rows, img.width, img.height, ramp, i);
  }

  /** Every character of the joined rows is a row end or a character of some row. */
  lemma LinesDrawFrom(rows: seq<seq<CodeUnit>>, w: nat, n: nat, alphabet: seq<CodeUnit>, i: nat)
    requires AllWidth(rows, w) && n <= |rows|
    requires forall y, x | 0 <= y < |rows| && 0 <= x < |rows[y]| :: rows[y][x] in alphabet
    requires i < |Lines(rows, n)|
    ensures Lines(rows, n)[i] == Newline || Lines(rows, n)[i] in alphabet
  {
    LinesLength(rows, w, n);
    var y := i / (w + 1);
    var x := i % (w + 1);
    assert i == Pos(w, x, y);
    if y >= n {
      MulMonotone(n, y, w + 1);
    }
    LinesAt(rows, w, n, y, x);
  }


  /** A height of zero gives empty text and an empty colour grid. */
  lemma RenderNoRows(s: Settings, ramp: seq<CodeUnit>, img: Image)
    requires img.Valid() && |ramp| >= 1 && img.height == 0
    ensures Render(s, ramp, img) == Ascii([], [])
  {
  }

  /** A one-glyph ramp draws that glyph everywhere. */
  lemma SingleGlyphRamp(s: Settings, ramp: seq<CodeUnit>, t: Shade)
    requires |ramp| == 1 && t.InRange()
    ensures GlyphOf(s, ramp, t) == ramp[0]
  {
    GlyphIndexSingle(CellGray(t, s.contrast, s.invert));
  }

  /** With invert on, a cell shows the glyph that grey 255 - g selects, where
      g is its grey with invert off. */
  lemma InvertedGlyph(s: Settings, ramp: seq<CodeUnit>, t: Shade)
    requires |ramp| >= 1 && s.invert
    ensures GlyphOf(s, ramp, t) ==
            ramp[GlyphIndex(255.0 - CellGray(t, s.contrast, false), |ramp|)]
  {
    InvertLaw(t, s.contrast, |ramp|);
  }

  // ---------------------------------------------------------------------
  // The pixel loop as written

  /** The colour a pixel's tone pipeline gives posterises to itself. */
  lemma RePosterizeFixes(px: Rgb, brightness: real, saturation: real, bitDepth: nat)
    ensures var t := ToneColor(px, brightness, saturation, bitDepth);
      && Posterize(t.r, bitDepth) == t.r
      && Posterize(t.g, bitDepth) == t.g
      && Posterize(t.b, bitDepth) == t.b
  {
    var lit := Shade(Brighten(px.r as real, brightness),
                     Brighten(px.g as real, brightness),
                     Brighten(px.b as real, brightness));
    var sat := Saturate(lit, saturation);
    PosterizeIdempotent(sat.r, bitDepth);
    PosterizeIdempotent(sat.g, bitDepth);
    PosterizeIdempotent(sat.b, bitDepth);
  }

  /** The dithering branch for the pixel px at `offset`: its colour is
      re-posterised and the differences are spread with `distributeError`.
      The colour is already posterised, so the differences are zero and every
      byte is written back as it was. */
  method DitherStep(data: seq<int>, offset: int, width: int, px: Rgb, brightness: real, saturation: real, bitDepth: nat)
    returns (d: seq<int>)
    requires forall i | 0 <= i < |data| :: IsByte(data[i])
    ensures d == data
  {
    var t := ToneColor(px, brightness, saturation, bitDepth);
    var newR := Posterize(t.r, bitDepth);
    var newG := Posterize(t.g, bitDepth);
    var newB := Posterize(t.b, bitDepth);
    RePosterizeFixes(px, brightness, saturation, bitDepth);
    var errR, errG, errB := t.r - newR, t.g - newG, t.b - newB;
    assert errR == 0.0 && errG == 0.0 && errB == 0.0;
    DistributeZero(data, offset, width);
    d := DistributeError(data, offset, width, errR, errG, errB);
  }

  /** The inner loop of `convertToAscii`: row y's glyphs and colour strings,
      reading and dithering the buffer as it goes. */
  method ConvertRow(s: Settings, ramp: seq<CodeUnit>, img: Image, data: seq<int>, y: nat)
    returns (row: seq<CodeUnit>, rowColors: seq<string>, data': seq<int>)
    requires img.Valid() && |ramp| >= 1 && y < img.height
    requires data == img.data
    ensures data' == data
    ensures row == GlyphRow(s, ramp, img, y)
    ensures rowColors == ColorRow(s, img, y)
  {
    var w := img.width;
    data' := data;
    row, rowColors := [], [];
    var x := 0;
    while x < w
      invariant 0 <= x <= w
      invariant data' == img.data
      invariant |row| == x && |rowColors| == x
      invariant forall k | 0 <= k < x :: row[k] == GlyphOf(s, ramp, CellTone(s, img, k, y))
      invariant forall k | 0 <= k < x :: rowColors[k] == CellColor(Floored(CellTone(s, img, k, y)))
    {
      var glyph, color;
      glyph, color, data' := ConvertCell(s, ramp, img, data', x, y);
      rowColors := rowColors + [color];
      row := row + [glyph];
      x := x + 1;
    }
  }

  /** The body of the inner loop for pixel (x, y): its tone, the optional
      dithering step, its colour string and its glyph. */
  method ConvertCell(s: Settings, ramp: seq<CodeUnit>, img: Image, data: seq<int>, x: nat, y: nat)
    returns (glyph: CodeUnit, color: string, data': seq<int>)
    requires img.Valid() && |ramp| >= 1 && x < img.width && y < img.height
    requires data == img.data
    ensures data' == data
    ensures glyph == GlyphOf(s, ramp, CellTone(s, img, x, y))
    ensures color == CellColor(Floored(CellTone(s, img, x, y)))
  {
    var w, h := img.width, img.height;
    PixelInside(w, h, x, y);
    var offset := (y * w + x) * 4;
    var px := Rgb(data[offset], data[offset + 1], data[offset + 2]);
    var t := ToneColor(px, s.brightness, s.saturation, s.bitDepth);
    assert t == CellTone(s, img, x, y);
    data' := data;
    if s.dithering && x < w - 1 && y < h - 1 {
      data' := DitherStep(data, offset, w, px, s.brightness, s.saturation, s.bitDepth);
    }
    color := CellColor(Floored(t));
    glyph := GlyphOf(s, ramp, t);
  }

  /** The nested loops of `convertToAscii` over a filtered buffer. The buffer
      the loop reads never changes: see DitherStep. */
  method ConvertPixels(s: Settings, ramp: seq<CodeUnit>, img: Image) returns (out: Ascii)
    requires img.Valid() && |ramp| >= 1
    ensures out == Render(s, ramp, img)
  {
    var rows := GlyphRows(s, ramp, img);
    var grid := ColorRows(s, img);
    var data := img.data;
    var text: seq<CodeUnit> := [];
    var colors: seq<seq<string>> := [];
    var y := 0;
    while y < img.height
      invariant 0 <= y <= img.height
      invariant data == img.data
      invariant text == Lines(rows, y)
      invariant colors == grid[..y]
    {
      var row, rowColors;
      row, rowColors, data := ConvertRow(s, ramp, img, data, y);
      text := text + row + [Newline];
      colors := colors + [rowColors];
      y := y + 1;
    }
    assert grid[..y] == grid;
    out := Ascii(text, colors);
  }

  // ---------------------------------------------------------------------
  // The whole conversion

  /** `convertToAscii(image)`, given the buffer `drawImage` leaves on a canvas
      of the computed size: an error when the canvas has no pixels, else the
      rendering of the filtered buffer. */
  function Convert(s: Settings, ramp: seq<CodeUnit>, srcWidth: nat, srcHeight: nat, drawn: Image): (r: Result<Ascii, CanvasError>)
    requires |ramp| >= 1 && drawn.Valid()
    requires drawn.width == s.width && drawn.height == CanvasHeight(s.width, srcWidth, srcHeight)
    ensures r.Err? <==> s.width == 0 || CanvasHeight(s.width, srcWidth, srcHeight) == 0
    ensures r.Ok? ==> |r.value.colors| == CanvasHeight(s.width, srcWidth, srcHeight)
    ensures r.Ok? ==> |r.value.text| == CanvasHeight(s.width, srcWidth, srcHeight) * (s.width + 1)
    ensures r.Ok? ==> Shaped(s, ramp, Filtered(s, drawn), r.value)
  {
    if s.width == 0 || CanvasHeight(s.width, srcWidth, srcHeight) == 0 then Err(NoPixels)
    else
      RenderIsShaped(s, ramp, Filtered(s, drawn));
      Ok(Render(s, ramp, Filtered(s, drawn)))
  }

  method ConvertToAscii(s: Settings, ramp: seq<CodeUnit>, srcWidth: nat, srcHeight: nat, drawn: Image)
    returns (r: Result<Ascii, CanvasError>)
    requires |ramp| >= 1 && drawn.Valid()
    requires drawn.width == s.width && drawn.height == CanvasHeight(s.width, srcWidth, srcHeight)
    ensures r == Convert(s, ramp, srcWidth, srcHeight, drawn)
  {
    var height := CanvasHeight(s.width, srcWidth, srcHeight);
    if s.width == 0 || height == 0 {
      return Err(NoPixels);
    }
    var img := Filtered(s, drawn);
    var ascii := ConvertPixels(s, ramp, img);
    return Ok(ascii);
  }

  /** Under the default settings a white pixel keeps its tone and selects
      the last glyph of the ramp. */
  lemma WhiteCell(ramp: seq<CodeUnit>, img: Image, x: nat, y: nat)
    requires img.Valid() && |ramp| >= 1 && x < img.width && y < img.height
    requires forall i | 0 <= i < |img.data| && i % 4 < 3 :: img.data[i] == 255
    ensures CellTone(Defaults, img, x, y) == Shade(255.0, 255.0, 255.0)
    ensures GlyphOf(Defaults, ramp, CellTone(Defaults, img, x, y)) == ramp[|ramp| - 1]
  {
    WhitePixel(img, x, y);
    WhiteTone(Rgb(255, 255, 255));
    WhiteGlyph(ramp, Shade(255.0, 255.0, 255.0));
  }

  lemma WhitePixel(img: Image, x: nat, y: nat)
    requires img.Valid() && x < img.width && y < img.height
    requires forall i | 0 <= i < |img.data| && i % 4 < 3 :: img.data[i] == 255
    ensures y * img.width + x < img.width * img.height
    ensures PixelRgb(img.data, y * img.width + x) == Rgb(255, 255, 255)
  {
    PixelInside(img.width, img.height, x, y);
    var p := y * img.width + x;
    assert (4 * p + 1) % 4 == 1 && (4 * p + 2) % 4 == 2;
  }

  lemma WhiteTone(c: Rgb)
    requires c == Rgb(255, 255, 255)
    ensures ToneColor(c, Defaults.brightness, Defaults.saturation, Defaults.bitDepth) == Shade(255.0, 255.0, 255.0)
  {
    ToneColorNeutral(c);
  }

  lemma WhiteGlyph(ramp: seq<CodeUnit>, t: Shade)
    requires |ramp| >= 1 && t == Shade(255.0, 255.0, 255.0)
    ensures t.InRange() && GlyphOf(Defaults, ramp, t) == ramp[|ramp| - 1]
  {
    LumaOfGrey(255.0);
    ContrastOne(255.0);
    assert CellGray(t, 1.0, false) == 255.0;
    GlyphIndexBand(255.0, |ramp|);
  }

  /** A white 2 x 1 buffer under the default settings: the brightest glyph
      of the ramp twice, then the row end. */
  lemma WhiteRow(ramp: seq<CodeUnit>, img: Image)
    requires img.Valid() && img.width == 2 && img.height == 1 && |ramp| >= 1
    requires forall i | 0 <= i < |img.data| && i % 4 < 3 :: img.data[i] == 255
    ensures Render(Defaults, ramp, img).text == [ramp[|ramp| - 1], ramp[|ramp| - 1], Newline]
  {
    WhiteCell(ramp, img, 0, 0);
    WhiteCell(ramp, img, 1, 0);
    TwoByOneText(Defaults, ramp, img);
  }

  /** The text of a 2 x 1 buffer: its two glyphs and the row end. */
  lemma TwoByOneText(s: Settings, ramp: seq<CodeUnit>, img: Image)
    requires img.Valid() && img.width == 2 && img.height == 1 && |ramp| >= 1
    ensures Render(s, ramp, img).text ==
      [GlyphOf(s, ramp, CellTone(s, img, 0, 0)), GlyphOf(s, ramp, CellTone(s, img, 1, 0)), Newline]
  {
    RenderTextAt(s, ramp, img, 0, 0);
    RenderTextAt(s, ramp, img, 1, 0);
    RenderTextAt(s, ramp, img, 2, 0);
    var rows := GlyphRows(s, ramp, img);
    assert AllWidth(rows, 2);
    LinesLength(rows, 2, 1);
  }

  /** The brightest glyph of the simple ramp is `@`: with it, the white
      2 x 1 buffer above renders as `@@` and the row end. */
  lemma SimpleBrightest(ramp: seq<CodeUnit>)
    requires ramp == Utf16(Simple)
    ensures |ramp| == 10 && ramp[9] == '@' as int as CodeUnit
  {
    SimpleIsBmp();
    Utf16OfBmp(Simple);
  }

  lemma SimpleIsBmp()
    ensures |Simple| == 10 && Simple[9] == '@'
    ensures forall i | 0 <= i < |Simple| :: Simple[i] as int < 0x1_0000
  {
  }

  // ---------------------------------------------------------------------
  // Animated previews

  /** `frame.delay || 100`: an absent or zero delay becomes 100 centiseconds. */
  function NormalizeDelay(delay: Option<int>): (d: int)
    ensures d != 0
    ensures delay.Some? && delay.value != 0 ==> d == delay.value
    ensures delay.None? || delay.value == 0 ==> d == 100
  {
    match delay
    case Some(v) => if v != 0 then v else 100
    case None => 100
  }

  /** Normalising a normalised delay changes nothing. */
  lemma NormalizeDelayIdempotent(delay: Option<int>)
    ensures NormalizeDelay(Some(NormalizeDelay(delay))) == NormalizeDelay(delay)
  {
  }

  /** A decoded frame: its source size, the buffer drawn from it at the
      output size, and its delay. */
  datatype Frame = Frame(srcWidth: nat, srcHeight: nat, drawn: Image, delay: int)

  predicate FrameFits(s: Settings, f: Frame) {
    f.drawn.Valid() && f.drawn.width == s.width
    && f.drawn.height == CanvasHeight(s.width, f.srcWidth, f.srcHeight)
  }

  datatype AsciiFrame = AsciiFrame(ascii: Ascii, delay: int)

  function ConvertFrame(s: Settings, ramp: seq<CodeUnit>, f: Frame): Result<Ascii, CanvasError>
    requires |ramp| >= 1 && FrameFits(s, f)
  {
    Convert(s, ramp, f.srcWidth, f.srcHeight, f.drawn)
  }

  /** The frame loop of `updatePreview`: one converted frame per source frame,
      in order, each keeping its delay; the first failure ends the loop. */
  method ConvertFrames(s: Settings, ramp: seq<CodeUnit>, frames: seq<Frame>)
    returns (r: Result<seq<AsciiFrame>, CanvasError>)
    requires |ramp| >= 1
    requires forall i | 0 <= i < |frames| :: FrameFits(s, frames[i])
    ensures r.Ok? <==> forall i | 0 <= i < |frames| ::
      ConvertFrame(s, ramp, frames[i]).Ok?
    ensures r.Ok? ==> |r.value| == |frames| && forall i | 0 <= i < |frames| ::
      && r.value[i].delay == frames[i].delay
      && Ok(r.value[i].ascii) == ConvertFrame(s, ramp, frames[i])
  {
    var out: seq<AsciiFrame> := [];
    var i := 0;
    while i < |frames|
      invariant 0 <= i <= |frames|
      invariant |out| == i
      invariant forall j | 0 <= j < i ::
        && out[j].delay == frames[j].delay
        && Ok(out[j].ascii) == ConvertFrame(s, ramp, frames[j])
    {
      var f := frames[i];
      var res := ConvertToAscii(s, ramp, f.srcWidth, f.srcHeight, f.drawn);
      if res.Err? {
        return Err(res.error);
      }
      out := out + [AsciiFrame(res.value, f.delay)];
      i := i + 1;
    }
    return Ok(out);
  }
}
