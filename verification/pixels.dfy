/** RGBA pixel buffers (the browser's ImageData) and the byte store of a
    Uint8ClampedArray. */
module Pixels {

  /** One channel value as held by a Uint8ClampedArray. */
  predicate IsByte(v: int) {
    0 <= v <= 255
  }

  /** An integer RGB colour, as read from a buffer or parsed from a string. */
  datatype Rgb = Rgb(r: int, g: int, b: int)
  {
    predicate IsBytes() {
      IsByte(r) && IsByte(g) && IsByte(b)
    }
  }

  /** Squared Euclidean distance in RGB space. */
  function SqDist(a: Rgb, b: Rgb): (d: int)
    ensures d >= 0
    ensures d == 0 <==> a == b
  {
    var dr := a.r - b.r;
    var dg := a.g - b.g;
    var db := a.b - b.b;
    assert dr * dr >= 0 && dg * dg >= 0 && db * db >= 0;
    dr * dr + dg * dg + db * db
  }

  /** A width x height grid of RGBA samples, row-major, four channels per pixel. */
  datatype Image = Image(width: nat, height: nat, data: seq<int>)
  {
    predicate Valid() {
      && |data| == 4 * (width * height)
      && forall i | 0 <= i < |data| :: IsByte(data[i])
    }
  }

  /** A freshly allocated ImageData: every channel, alpha included, is zero. */
  function Blank(width: nat, height: nat): (img: Image)
    ensures img.Valid() && img.width == width && img.height == height
    ensures forall i | 0 <= i < |img.data| :: img.data[i] == 0
  {
    Image(width, height, seq(4 * (width * height), _ => 0))
  }

  /** Index of channel c of pixel (x, y) in a buffer of the given width. */
  function Offset(width: int, x: int, y: int, c: int): int {
    (y * width + x) * 4 + c
  }

  lemma MulMonotone(a: int, b: int, k: nat)
    requires a <= b
    ensures a * k <= b * k
  {
  }

  /** Every channel of every pixel of the grid lies inside the buffer. */
  lemma OffsetInRange(width: nat, height: nat, x: int, y: int, c: int)
    requires 0 <= x < width && 0 <= y < height && 0 <= c < 4
    ensures 0 <= Offset(width, x, y, c) < 4 * (width * height)
    ensures Offset(width, x, y, c) % 4 == c
    ensures Offset(width, x, y, c) / 4 == y * width + x
  {
    MulMonotone(y + 1, height, width);
    assert y * width + x < (y + 1) * width;
    assert 0 <= y * width;
  }

  /** The channel index i belongs to the pixel at (x, y) with x = (i/4) % width
      and y = (i/4) / width, and that pixel is inside the grid. */
  lemma DecodeIndex(width: nat, height: nat, i: int)
    requires 0 <= i < 4 * (width * height)
    ensures width > 0
    ensures 0 <= (i / 4) / width < height
    ensures Offset(width, (i / 4) % width, (i / 4) / width, i % 4) == i
  {
    var p := i / 4;
    assert p < width * height;
    if p / width >= height {
      MulMonotone(height, p / width, width);
      assert false;
    }
  }

  lemma MulRightStrict(a: real, b: real, k: real)
    requires k > 0.0 && a < b
    ensures a * k < b * k
  {
  }

  lemma MulRightMonotone(a: real, b: real, k: real)
    requires k >= 0.0 && a <= b
    ensures a * k <= b * k
  {
  }

  lemma MulRightCancelLe(a: real, b: real, k: real)
    requires k > 0.0 && a * k <= b * k
    ensures a <= b
  {
  }

  lemma MulRightCancelLt(a: real, b: real, k: real)
    requires k > 0.0 && a * k < b * k
    ensures a < b
  {
  }

  lemma DivThenMul(a: real, q: real)
    requires q != 0.0
    ensures (a / q) * q == a
  {
  }

  lemma MulThenDiv(a: real, q: real)
    requires q != 0.0
    ensures (a * q) / q == a
  {
  }

  /** Round half to even, the rounding of a store into a Uint8ClampedArray. */
  function RoundHalfEven(x: real): (n: int)
    ensures x - 0.5 <= n as real <= x + 0.5
    ensures n as real == x - 0.5 || n as real == x + 0.5 ==> n % 2 == 0
  {
    var f := x.Floor;
    var d := x - f as real;
    if d < 0.5 then f
    else if d > 0.5 then f + 1
    else if f % 2 == 0 then f
    else f + 1
  }

  /** The value a Uint8ClampedArray keeps when a number is stored into it:
      clamped to [0, 255], then rounded half to even. */
  function ToByte(x: real): (b: int)
    ensures IsByte(b)
    ensures x <= 0.0 ==> b == 0
    ensures x >= 255.0 ==> b == 255
    ensures 0.0 <= x <= 255.0 ==> x - 0.5 <= b as real <= x + 0.5
    ensures 0.0 < x < 255.0 && (b as real == x - 0.5 || b as real == x + 0.5) ==> b % 2 == 0
  {
    if x <= 0.0 then 0
    else if x >= 255.0 then 255
    else RoundHalfEven(x)
  }

  /** Storing a byte that is already a whole number keeps it. */
  lemma ToByteOfByte(v: int)
    requires IsByte(v)
    ensures ToByte(v as real) == v
  {
  }
}
