/** The per-pixel tone pipeline of the converter: brightness, saturation,
    posterisation, contrast, invert and the choice of a ramp slot. The
    arithmetic is exact (Dafny reals), where the browser uses doubles. */
module Tone {
  import opened Pixels

  /** A real-valued RGB colour inside the tone pipeline. */
  datatype Shade = Shade(r: real, g: real, b: real)
  {
    predicate InRange() {
      0.0 <= r <= 255.0 && 0.0 <= g <= 255.0 && 0.0 <= b <= 255.0
    }
  }

  /** `Math.max(0, Math.min(255, x))`. */
  function Clamp(x: real): (y: real)
    ensures 0.0 <= y <= 255.0
    ensures 0.0 <= x <= 255.0 ==> y == x
    ensures x < 0.0 ==> y == 0.0
    ensures x > 255.0 ==> y == 255.0
  {
    if x < 0.0 then 0.0 else if x > 255.0 then 255.0 else x
  }

  /** Brightness scales a channel and clamps it from above only. */
  function Brighten(c: real, brightness: real): (v: real)
    ensures v <= 255.0
    ensures v <= c * brightness
    ensures c * brightness <= 255.0 ==> v == c * brightness
    ensures c * brightness >= 255.0 ==> v == 255.0
  {
    if c * brightness < 255.0 then c * brightness else 255.0
  }

  /** The luma weights used for saturation and for glyph choice. The weights
      are positive and sum to one, so the luma lies between the least and the
      greatest channel: some channel is at most it and some at least it. */
  function Luma(r: real, g: real, b: real): (v: real)
    ensures v <= r || v <= g || v <= b
    ensures v >= r || v >= g || v >= b
  {
    0.299 * r + 0.587 * g + 0.114 * b
  }

  /** The weights sum to one, so a grey's luma is its level, and the luma of
      in-range channels is in range. */
  lemma LumaOfGrey(c: real)
    ensures Luma(c, c, c) == c
  {
  }

  lemma LumaInRange(s: Shade)
    requires s.InRange()
    ensures 0.0 <= Luma(s.r, s.g, s.b) <= 255.0
  {
  }

  /** Saturation moves each channel away from (or toward) the luma, then clamps. */
  function Saturate(s: Shade, saturation: real): (t: Shade)
    ensures t.InRange()
  {
    var gray := Luma(s.r, s.g, s.b);
    Shade(Clamp(gray + saturation * (s.r - gray)),
          Clamp(gray + saturation * (s.g - gray)),
          Clamp(gray + saturation * (s.b - gray)))
  }

  /** Saturation 1 leaves an in-range colour alone. */
  lemma SaturateOne(s: Shade)
    requires s.InRange()
    ensures Saturate(s, 1.0) == s
  {
  }

  /** Saturation 0 turns a colour into the grey of its luma. */
  lemma SaturateZero(s: Shade)
    requires s.InRange()
    ensures var t := Saturate(s, 0.0); t.r == t.g == t.b == Luma(s.r, s.g, s.b)
  {
    LumaInRange(s);
  }

  function Pow2(n: nat): (p: nat)
    ensures p >= 1
  {
    if n == 0 then 1 else 2 * Pow2(n - 1)
  }

  /** `Math.pow(2, bitDepth)` posterisation levels, and the width of one level
      on the 0..256 scale. */
  function Levels(bitDepth: nat): (l: real)
    ensures l >= 1.0
  {
    Pow2(bitDepth) as real
  }

  function Quantum(bitDepth: nat): (q: real)
    ensures q > 0.0
  {
    256.0 / Levels(bitDepth)
  }

  /** v is a whole number of quanta q. */
  predicate IsMultipleOf(v: real, q: real)
    requires q > 0.0
  {
    (v / q).Floor as real == v / q
  }

  /** Scaling by 1/256 and then by the level count is dividing by the quantum. */
  lemma ScaleIsQuotient(c: real, bitDepth: nat)
    ensures c / 256.0 * Levels(bitDepth) == c / Quantum(bitDepth)
  {
    var l := Levels(bitDepth);
    var q := Quantum(bitDepth);
    DivThenMul(256.0, l);
    assert q * l == 256.0;
    DivThenMul(c, 256.0);
    DivThenMul(c, q);
    calc {
      (c / 256.0 * l) * q;
      (c / 256.0) * (q * l);
      (c / 256.0) * 256.0;
      c;
      (c / q) * q;
    }
    MulRightCancelLe(c / 256.0 * l, c / q, q);
    MulRightCancelLe(c / q, c / 256.0 * l, q);
  }

  /** Dividing j*q <= c < (j+1)*q by the positive q places c/q in [j, j+1). */
  lemma QuotientBand(c: real, q: real, j: int)
    requires q > 0.0
    requires j as real * q <= c < (j + 1) as real * q
    ensures (c / q).Floor == j
  {
    var x := c / q;
    DivThenMul(c, q);
    MulRightCancelLe(j as real, x, q);
    MulRightCancelLt(x, (j + 1) as real, q);
  }

  /** A whole number k of quanta is a multiple of the quantum. */
  lemma WholeQuanta(k: int, q: real)
    requires q > 0.0
    ensures IsMultipleOf(k as real * q, q)
  {
    MulThenDiv(k as real, q);
    assert (k as real).Floor == k;
  }

  /** The floor k of c/q brackets c between k and k + 1 quanta. */
  lemma FloorBand(c: real, q: real)
    requires q > 0.0
    ensures var k := (c / q).Floor;
      k as real * q <= c < (k + 1) as real * q
  {
    var k := (c / q).Floor;
    DivThenMul(c, q);
    MulRightMonotone(k as real, c / q, q);
    MulRightStrict(c / q, (k + 1) as real, q);
  }

  /** `Math.floor(c / 256 * levels) * (256 / levels)`: the largest multiple of
      the quantum that does not exceed c. */
  function Posterize(c: real, bitDepth: nat): (v: real)
    ensures IsMultipleOf(v, Quantum(bitDepth))
    ensures v <= c < v + Quantum(bitDepth)
  {
    var q := Quantum(bitDepth);
    var k := (c / 256.0 * Levels(bitDepth)).Floor;
    ScaleIsQuotient(c, bitDepth);
    FloorBand(c, q);
    WholeQuanta(k, q);
    assert (k + 1) as real * q == k as real * q + q;
    k as real * q
  }

  /** Posterize is determined by its contract: a multiple m of the quantum
      with m <= c < m + quantum is the posterised value of c. */
  lemma PosterizeUnique(c: real, bitDepth: nat, m: real)
    requires IsMultipleOf(m, Quantum(bitDepth))
    requires m <= c < m + Quantum(bitDepth)
    ensures Posterize(c, bitDepth) == m
  {
    var q := Quantum(bitDepth);
    var v := Posterize(c, bitDepth);
    var j := (m / q).Floor;
    var k := (v / q).Floor;
    assert m == j as real * q;
    assert v == k as real * q;
    assert (j + 1) as real * q == m + q;
    assert (k + 1) as real * q == v + q;
    QuotientBand(c, q, j);
    QuotientBand(c, q, k);
  }

  /** A whole number of quanta is already posterised. */
  lemma PosterizeFixesMultiples(k: int, bitDepth: nat)
    ensures Posterize(k as real * Quantum(bitDepth), bitDepth) == k as real * Quantum(bitDepth)
  {
    var v := k as real * Quantum(bitDepth);
    WholeQuanta(k, Quantum(bitDepth));
    assert (k + 1) as real * Quantum(bitDepth) == v + Quantum(bitDepth);
    PosterizeUnique(v, bitDepth, v);
  }

  /** Posterising twice is posterising once. */
  lemma PosterizeIdempotent(c: real, bitDepth: nat)
    ensures Posterize(Posterize(c, bitDepth), bitDepth) == Posterize(c, bitDepth)
  {
    var v := Posterize(c, bitDepth);
    PosterizeUnique(v, bitDepth, v);
  }

  /** An in-range channel posterises to an in-range channel. */
  lemma PosterizeInRange(c: real, bitDepth: nat)
    requires 0.0 <= c <= 255.0
    ensures 0.0 <= Posterize(c, bitDepth) <= 255.0
  {
    var q := Quantum(bitDepth);
    var v := Posterize(c, bitDepth);
    var k := (v / q).Floor;
    assert v == k as real * q;
    assert (k + 1) as real * q == v + q;
    if k < 0 {
      assert false;
    }
  }

  /** With one bit per channel only the levels 0 and 128 remain. */
  lemma PosterizeOneBit(c: real)
    requires 0.0 <= c <= 255.0
    ensures Posterize(c, 1) == 0.0 || Posterize(c, 1) == 128.0
  {
    assert Quantum(1) == 128.0;
    if c < 128.0 {
      PosterizeUnique(c, 1, 0.0);
    } else {
      assert 128.0 / 128.0 == 1.0;
      PosterizeUnique(c, 1, 128.0);
    }
  }

  /** With eight bits per channel posterisation is the floor. */
  lemma PosterizeEightBits(c: real)
    ensures Posterize(c, 8) == c.Floor as real
  {
    assert Pow2(8) == 256;
    assert Quantum(8) == 1.0;
    PosterizeUnique(c, 8, c.Floor as real);
  }

  /** The colour of a cell: brightness, then saturation, then posterisation,
      applied to the pixel read from the buffer. */
  function ToneColor(px: Rgb, brightness: real, saturation: real, bitDepth: nat): (t: Shade)
    ensures t.InRange()
    ensures IsMultipleOf(t.r, Quantum(bitDepth))
    ensures IsMultipleOf(t.g, Quantum(bitDepth))
    ensures IsMultipleOf(t.b, Quantum(bitDepth))
  {
    var lit := Shade(Brighten(px.r as real, brightness),
                     Brighten(px.g as real, brightness),
                     Brighten(px.b as real, brightness));
    var sat := Saturate(lit, saturation);
    PosterizeInRange(sat.r, bitDepth);
    PosterizeInRange(sat.g, bitDepth);
    PosterizeInRange(sat.b, bitDepth);
    Shade(Posterize(sat.r, bitDepth), Posterize(sat.g, bitDepth), Posterize(sat.b, bitDepth))
  }

  /** With the neutral settings and eight bits an in-range pixel keeps its colour. */
  lemma ToneColorNeutral(px: Rgb)
    requires px.IsBytes()
    ensures ToneColor(px, 1.0, 1.0, 8) == Shade(px.r as real, px.g as real, px.b as real)
  {
    var s := Shade(px.r as real, px.g as real, px.b as real);
    SaturateOne(s);
    PosterizeEightBits(px.r as real);
    PosterizeEightBits(px.g as real);
    PosterizeEightBits(px.b as real);
  }

  /** Contrast stretches the grey level around the midpoint 127.5, then clamps. */
  function ContrastGray(gray: real, contrast: real): (v: real)
    ensures 0.0 <= v <= 255.0
  {
    Clamp(((gray / 255.0 - 0.5) * contrast + 0.5) * 255.0)
  }

  lemma ContrastOne(gray: real)
    requires 0.0 <= gray <= 255.0
    ensures ContrastGray(gray, 1.0) == gray
  {
  }

  /** The grey level that selects the glyph of a cell coloured t. */
  function CellGray(t: Shade, contrast: real, invert: bool): (v: real)
    ensures 0.0 <= v <= 255.0
  {
    var v := ContrastGray(Luma(t.r, t.g, t.b), contrast);
    if invert then 255.0 - v else v
  }

  /** `Math.floor(gray / 255 * (n - 1))`: the ramp slot of a grey level. */
  function GlyphIndex(gray: real, n: nat): (i: nat)
    requires n >= 1
    requires 0.0 <= gray <= 255.0
    ensures i < n
  {
    var f := gray / 255.0;
    assert 0.0 <= f <= 1.0;
    var m := (n - 1) as real;
    var x := f * m;
    assert m - x == (1.0 - f) * m;
    assert 0.0 <= x <= m;
    x.Floor
  }

  /** The slot is the one whose band [i*255, (i+1)*255) holds gray*(n-1),
      except that full white takes the last slot. */
  lemma GlyphIndexBand(gray: real, n: nat)
    requires n >= 1
    requires 0.0 <= gray <= 255.0
    ensures var i := GlyphIndex(gray, n);
      i as real * 255.0 <= gray * (n - 1) as real < (i + 1) as real * 255.0
    ensures gray == 255.0 ==> GlyphIndex(gray, n) == n - 1
    ensures gray == 0.0 ==> GlyphIndex(gray, n) == 0
  {
    var i := GlyphIndex(gray, n);
    var x := gray / 255.0 * (n - 1) as real;
    assert x * 255.0 == gray * (n - 1) as real;
  }

  /** A lighter grey never selects an earlier slot. */
  lemma GlyphIndexMonotone(g1: real, g2: real, n: nat)
    requires n >= 1
    requires 0.0 <= g1 <= g2 <= 255.0
    ensures GlyphIndex(g1, n) <= GlyphIndex(g2, n)
  {
    assert g1 / 255.0 * (n - 1) as real <= g2 / 255.0 * (n - 1) as real;
  }

  /** A one-glyph ramp always yields its only slot. */
  lemma GlyphIndexSingle(gray: real)
    requires 0.0 <= gray <= 255.0
    ensures GlyphIndex(gray, 1) == 0
  {
  }

  /** Inverting reflects the contrasted grey: the slot chosen with invert on is
      the slot of 255 minus the grey chosen with invert off. */
  lemma InvertLaw(t: Shade, contrast: real, n: nat)
    requires n >= 1
    ensures CellGray(t, contrast, true) == 255.0 - CellGray(t, contrast, false)
    ensures GlyphIndex(CellGray(t, contrast, true), n) == GlyphIndex(255.0 - CellGray(t, contrast, false), n)
  {
  }
}
