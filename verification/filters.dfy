/** The pixel filters that run before the tone pipeline: background keying
    (in place), a 3x3 sharpen kernel and a Sobel edge map (each into a fresh,
    zeroed buffer whose one-pixel border is left untouched). */
module Filters {
  import opened Pixels
  import Tone

  /** The RGB of pixel p of a flat RGBA array. */
  function PixelRgb(data: seq<int>, p: int): Rgb
    requires 0 <= p && 4 * p + 4 <= |data|
  {
    Rgb(data[4 * p], data[4 * p + 1], data[4 * p + 2])
  }

  /** The alpha of pixel p of a flat RGBA array. */
  function Alpha(data: seq<int>, p: int): int
    requires 0 <= p && 4 * p + 4 <= |data|
  {
    data[4 * p + 3]
  }

  /** The keying test `sqrt(d2) <= tolerance * 2.55`, stated on squares: a
      square root is at most t exactly when t is not negative and d2 <= t*t. */
  predicate WithinTolerance(c: Rgb, target: Rgb, tolerance: real) {
    var t := tolerance * 2.55;
    t >= 0.0 && SqDist(c, target) as real <= t * t
  }

  /** One iteration of the keying loop, on pixel p (red channel at 4p). */
  function KeyPixel(data: seq<int>, p: nat, target: Rgb, replacement: Rgb, tolerance: real): (d: seq<int>)
    requires 4 * p + 4 <= |data|
    ensures |d| == |data|
    ensures WithinTolerance(PixelRgb(data, p), target, tolerance) ==>
      PixelRgb(d, p) == replacement && Alpha(d, p) == 255
    ensures !WithinTolerance(PixelRgb(data, p), target, tolerance) ==> d == data
  {
    var i := 4 * p;
    if WithinTolerance(PixelRgb(data, p), target, tolerance)
    then data[i := replacement.r][i + 1 := replacement.g][i + 2 := replacement.b][i + 3 := 255]
    else data
  }

  lemma KeyPixelEffect(data: seq<int>, p: nat, target: Rgb, replacement: Rgb, tolerance: real)
    requires 4 * p + 4 <= |data|
    ensures var d := KeyPixel(data, p, target, replacement, tolerance);
      && |d| == |data|
      && (forall q | 0 <= q && q != p && 4 * q + 4 <= |data| ::
            PixelRgb(d, q) == PixelRgb(data, q) && Alpha(d, q) == Alpha(data, q))
      && (if WithinTolerance(PixelRgb(data, p), target, tolerance)
          then PixelRgb(d, p) == replacement && Alpha(d, p) == 255
          else d == data)
      && ((forall j | 0 <= j < |data| :: IsByte(data[j])) && replacement.IsBytes() ==>
            forall j | 0 <= j < |d| :: IsByte(d[j]))
  {
  }

  /** The keying loop from pixel p to the end. Pixels before p are kept; each
      later pixel within tolerance of the target gets the replacement RGB and
      full alpha, every other pixel is kept whole. */
  function KeyFrom(data: seq<int>, p: nat, target: Rgb, replacement: Rgb, tolerance: real): (d: seq<int>)
    requires |data| % 4 == 0
    decreases |data| - 4 * p
    ensures |d| == |data|
    ensures forall q | 0 <= q < p && 4 * q + 4 <= |data| ::
      PixelRgb(d, q) == PixelRgb(data, q) && Alpha(d, q) == Alpha(data, q)
    ensures forall q | p <= q && 4 * q + 4 <= |data| ::
      if WithinTolerance(PixelRgb(data, q), target, tolerance)
      then PixelRgb(d, q) == replacement && Alpha(d, q) == 255
      else PixelRgb(d, q) == PixelRgb(data, q) && Alpha(d, q) == Alpha(data, q)
    ensures (forall j | 0 <= j < |data| :: IsByte(data[j])) && replacement.IsBytes() ==>
      forall j | 0 <= j < |d| :: IsByte(d[j])
  {
    if 4 * p >= |data| then data
    else
      var next := KeyPixel(data, p, target, replacement, tolerance);
      KeyPixelEffect(data, p, target, replacement, tolerance);
      KeyFrom(next, p + 1, target, replacement, tolerance)
  }

  /** `removeBackground`: every pixel within tolerance*2.55 (Euclidean, RGB)
      of the target takes the replacement RGB and alpha 255; every other pixel
      keeps all four channels; the buffer keeps its shape. */
  function RemoveBackground(img: Image, target: Rgb, replacement: Rgb, tolerance: real): (out: Image)
    requires img.Valid()
    requires replacement.IsBytes()
    ensures out.Valid() && out.width == img.width && out.height == img.height
    ensures forall p | 0 <= p < img.width * img.height ::
      if WithinTolerance(PixelRgb(img.data, p), target, tolerance)
      then PixelRgb(out.data, p) == replacement && Alpha(out.data, p) == 255
      else PixelRgb(out.data, p) == PixelRgb(img.data, p) && Alpha(out.data, p) == Alpha(img.data, p)
  {
    Image(img.width, img.height, KeyFrom(img.data, 0, target, replacement, tolerance))
  }

  /** With tolerance 0 only exact matches of the target are keyed. */
  lemma ToleranceZeroIsExact(c: Rgb, target: Rgb)
    ensures WithinTolerance(c, target, 0.0) <==> c == target
  {
  }

  /** Tolerance 10 on a white key is a radius of 25.5: a pixel 5 away is keyed,
      a pixel 50 away is not. */
  lemma KeyingRadiusExample()
    ensures WithinTolerance(Rgb(255, 252, 251), Rgb(255, 255, 255), 10.0)
    ensures !WithinTolerance(Rgb(255, 205, 255), Rgb(255, 255, 255), 10.0)
  {
  }

  /** Column and row of the pixel that owns channel index i. */
  function ColumnOf(width: nat, i: int): int {
    if width == 0 then 0 else (i / 4) % width
  }

  function RowOf(width: nat, i: int): int {
    if width == 0 then 0 else (i / 4) / width
  }

  /** The four channels of pixel p share its column and row. */
  lemma SamePixel(width: nat, p: nat, k: nat)
    requires k < 4
    ensures ColumnOf(width, 4 * p + k) == ColumnOf(width, 4 * p)
    ensures RowOf(width, 4 * p + k) == RowOf(width, 4 * p)
    ensures (4 * p + k) % 4 == k
  {
    assert (4 * p + k) / 4 == p;
    assert (4 * p) / 4 == p;
  }

  /** A multiple of w strictly between -w and w is zero. */
  lemma SmallMultiple(w: int, a: int, b: int)
    requires w > 0 && -w < b < w && a * w == b
    ensures a == 0
  {
    if a >= 1 {
      MulMonotone(1, a, w);
    } else if a <= -1 {
      MulMonotone(a, -1, w);
    }
  }

  /** Row-major position y * width + x divides back into row y, column x. */
  lemma RowMajorDivides(width: nat, x: int, y: int)
    requires 0 <= x < width && 0 <= y
    ensures (y * width + x) / width == y && (y * width + x) % width == x
  {
    var p := y * width + x;
    var q := p / width;
    var r := p % width;
    assert (q - y) * width == x - r by {
      assert q * width + r == p;
    }
    SmallMultiple(width, q - y, x - r);
  }

  /** The channel index of (x, y, c) decodes back to column x and row y. */
  lemma PixelOfOffset(width: nat, height: nat, x: int, y: int, c: int)
    requires 0 <= x < width && 0 <= y < height && 0 <= c < 4
    ensures 0 <= Offset(width, x, y, c) < 4 * (width * height)
    ensures Offset(width, x, y, c) % 4 == c
    ensures ColumnOf(width, Offset(width, x, y, c)) == x
    ensures RowOf(width, Offset(width, x, y, c)) == y
  {
    OffsetInRange(width, height, x, y, c);
    RowMajorDivides(width, x, y);
  }

  /** Channel index i belongs to a pixel off the one-pixel border. */
  predicate Interior(width: nat, height: nat, i: int) {
    1 <= ColumnOf(width, i) < width - 1 && 1 <= RowOf(width, i) < height - 1
  }

  /** Channel c of the neighbour (x+dx, y+dy) of an interior pixel. */
  function Near(img: Image, x: int, y: int, dx: int, dy: int, c: int): (v: int)
    requires img.Valid()
    requires 1 <= x < img.width - 1 && 1 <= y < img.height - 1
    requires -1 <= dx <= 1 && -1 <= dy <= 1 && 0 <= c < 4
    ensures 0 <= v <= 255
  {
    OffsetInRange(img.width, img.height, x + dx, y + dy, c);
    img.data[Offset(img.width, x + dx, y + dy, c)]
  }

  /** The sharpen kernel, row by row: centre 1 + 4a, edge neighbours -a,
      corners 0. */
  function Kernel(amount: real): (k: seq<real>)
    ensures |k| == 9
    ensures k[0] + k[1] + k[2] + k[3] + k[4] + k[5] + k[6] + k[7] + k[8] == 1.0
    ensures k[0] == k[2] == k[6] == k[8] == 0.0
    ensures k[1] == k[3] == k[5] == k[7] == -amount
  {
    [0.0, -amount, 0.0, -amount, 1.0 + 4.0 * amount, -amount, 0.0, -amount, 0.0]
  }

  /** Tap j of the kernel, in the source's row-major order: the weight of
      the tap times channel c of the neighbour it sits over. */
  function KernelTap(img: Image, amount: real, x: int, y: int, c: int, j: nat): real
    requires img.Valid()
    requires 1 <= x < img.width - 1 && 1 <= y < img.height - 1 && 0 <= c < 3
    requires j < 9
  {
    Near(img, x, y, j % 3 - 1, j / 3 - 1, c) as real * Kernel(amount)[j]
  }

  /** The sum of the first k kernel taps, in the source's row-major order.
      With amount 0 only the centre tap (the fifth) weighs anything: the sum
      is 0 before it (stated here) and the pixel's own channel from it on
      (`KernelSumZeroAmount`). */
  function KernelSum(img: Image, amount: real, x: int, y: int, c: int, k: nat): (sum: real)
    requires img.Valid()
    requires 1 <= x < img.width - 1 && 1 <= y < img.height - 1 && 0 <= c < 3
    requires k <= 9
    ensures amount == 0.0 && k < 5 ==> sum == 0.0
  {
    if k == 0 then 0.0
    else KernelSum(img, amount, x, y, c, k - 1) + KernelTap(img, amount, x, y, c, k - 1)
  }

  /** With amount 0, from the centre tap on the sum is the pixel's own
      channel: the taps after the centre all weigh 0. */
  lemma {:induction false} KernelSumZeroAmount(img: Image, x: int, y: int, c: int, k: nat)
    requires img.Valid()
    requires 1 <= x < img.width - 1 && 1 <= y < img.height - 1 && 0 <= c < 3
    requires 5 <= k <= 9
    ensures KernelSum(img, 0.0, x, y, c, k) == Near(img, x, y, 0, 0, c) as real
  {
    if k > 5 {
      KernelSumZeroAmount(img, x, y, c, k - 1);
      assert Kernel(0.0)[k - 1] == 0.0;
    }
  }

  function SharpenAt(img: Image, amount: real, i: int): (v: int)
    requires img.Valid() && 0 <= i < |img.data|
    ensures IsByte(v)
  {
    DecodeIndex(img.width, img.height, i);
    if Interior(img.width, img.height, i) then
      if i % 4 == 3 then 255
      else ToByte(Tone.Clamp(KernelSum(img, amount, ColumnOf(img.width, i), RowOf(img.width, i), i % 4, 9)))
    else 0
  }

  /** `applySharpness`: a same-size buffer whose border ring is all zero
      (alpha included) and whose interior pixels are opaque. */
  function Sharpen(img: Image, amount: real): (out: Image)
    requires img.Valid()
    ensures out.Valid() && out.width == img.width && out.height == img.height
    ensures forall i | 0 <= i < |out.data| && !Interior(img.width, img.height, i) :: out.data[i] == 0
    ensures forall i | 0 <= i < |out.data| && Interior(img.width, img.height, i) && i % 4 == 3 :: out.data[i] == 255
  {
    Image(img.width, img.height, seq(|img.data|, i requires 0 <= i < |img.data| => SharpenAt(img, amount, i)))
  }

  /** Sharpening by 0 reproduces the RGB of every interior pixel. */
  lemma SharpenZeroKeepsInterior(img: Image, i: int)
    requires img.Valid() && 0 <= i < |img.data|
    requires Interior(img.width, img.height, i) && i % 4 < 3
    ensures Sharpen(img, 0.0).data[i] == img.data[i]
  {
    DecodeIndex(img.width, img.height, i);
    var x := ColumnOf(img.width, i);
    var y := RowOf(img.width, i);
    var c := i % 4;
    assert Near(img, x, y, 0, 0, c) == img.data[i];
    KernelSumZeroAmount(img, x, y, c, 9);
    ToByteOfByte(img.data[i]);
  }

  /** One step of the tap loop: the first k taps are the first k - 1 and
      tap k - 1. */
  lemma KernelStep(img: Image, amount: real, x: int, y: int, c: int, k: nat)
    requires img.Valid()
    requires 1 <= x < img.width - 1 && 1 <= y < img.height - 1 && 0 <= c < 3
    requires 1 <= k <= 9
    ensures KernelSum(img, amount, x, y, c, k) ==
            KernelSum(img, amount, x, y, c, k - 1) + KernelTap(img, amount, x, y, c, k - 1)
  {
  }

  /** The nine-tap sum written out term by term. */
  lemma KernelSumUnrolled(img: Image, amount: real, x: int, y: int, c: int)
    requires img.Valid()
    requires 1 <= x < img.width - 1 && 1 <= y < img.height - 1 && 0 <= c < 3
    ensures KernelSum(img, amount, x, y, c, 9) ==
            KernelTap(img, amount, x, y, c, 0) + KernelTap(img, amount, x, y, c, 1)
            + KernelTap(img, amount, x, y, c, 2) + KernelTap(img, amount, x, y, c, 3)
            + KernelTap(img, amount, x, y, c, 4) + KernelTap(img, amount, x, y, c, 5)
            + KernelTap(img, amount, x, y, c, 6) + KernelTap(img, amount, x, y, c, 7)
            + KernelTap(img, amount, x, y, c, 8)
  {
    KernelStep(img, amount, x, y, c, 1);
    KernelStep(img, amount, x, y, c, 2);
    KernelStep(img, amount, x, y, c, 3);
    KernelStep(img, amount, x, y, c, 4);
    KernelStep(img, amount, x, y, c, 5);
    KernelStep(img, amount, x, y, c, 6);
    KernelStep(img, amount, x, y, c, 7);
    KernelStep(img, amount, x, y, c, 8);
    KernelStep(img, amount, x, y, c, 9);
  }

  /** The corner taps weigh nothing. */
  lemma KernelCorners(img: Image, amount: real, x: int, y: int, c: int)
    requires img.Valid()
    requires 1 <= x < img.width - 1 && 1 <= y < img.height - 1 && 0 <= c < 3
    ensures KernelTap(img, amount, x, y, c, 0) == 0.0 && KernelTap(img, amount, x, y, c, 2) == 0.0
    ensures KernelTap(img, amount, x, y, c, 6) == 0.0 && KernelTap(img, amount, x, y, c, 8) == 0.0
  {
  }

  /** Taps 1 and 3 weigh the upper and left neighbours by `-amount`. */
  lemma KernelUpperLeftTaps(img: Image, amount: real, x: int, y: int, c: int)
    requires img.Valid()
    requires 1 <= x < img.width - 1 && 1 <= y < img.height - 1 && 0 <= c < 3
    ensures KernelTap(img, amount, x, y, c, 1) == Near(img, x, y, 0, -1, c) as real * -amount
    ensures KernelTap(img, amount, x, y, c, 3) == Near(img, x, y, -1, 0, c) as real * -amount
  {
  }

  /** Taps 5 and 7 weigh the right and lower neighbours by `-amount`. */
  lemma KernelRightLowerTaps(img: Image, amount: real, x: int, y: int, c: int)
    requires img.Valid()
    requires 1 <= x < img.width - 1 && 1 <= y < img.height - 1 && 0 <= c < 3
    ensures KernelTap(img, amount, x, y, c, 5) == Near(img, x, y, 1, 0, c) as real * -amount
    ensures KernelTap(img, amount, x, y, c, 7) == Near(img, x, y, 0, 1, c) as real * -amount
  {
  }

  /** Tap 4 weighs the centre by `1 + 4 * amount`. */
  lemma KernelCentreTap(img: Image, amount: real, x: int, y: int, c: int)
    requires img.Valid()
    requires 1 <= x < img.width - 1 && 1 <= y < img.height - 1 && 0 <= c < 3
    ensures KernelTap(img, amount, x, y, c, 4) == Near(img, x, y, 0, 0, c) as real * (1.0 + 4.0 * amount)
  {
  }

  /** Nine terms whose corners are 0 and whose cross is given sum to the
      cross. */
  lemma SumOfCross(t0: real, t1: real, t2: real, t3: real, t4: real, t5: real, t6: real, t7: real, t8: real,
                   up: real, left: real, centre: real, right: real, down: real)
    requires t0 == 0.0 && t2 == 0.0 && t6 == 0.0 && t8 == 0.0
    requires t1 == up && t3 == left && t4 == centre && t5 == right && t7 == down
    ensures t0 + t1 + t2 + t3 + t4 + t5 + t6 + t7 + t8 == up + left + centre + right + down
  {
  }

  /** All nine taps: the four edge neighbours weighted `-amount` and the
      centre weighted `1 + 4 * amount`; the corners weigh nothing. */
  lemma KernelSumNine(img: Image, amount: real, x: int, y: int, c: int)
    requires img.Valid()
    requires 1 <= x < img.width - 1 && 1 <= y < img.height - 1 && 0 <= c < 3
    ensures KernelSum(img, amount, x, y, c, 9) ==
            Near(img, x, y, 0, -1, c) as real * -amount + Near(img, x, y, -1, 0, c) as real * -amount
            + Near(img, x, y, 0, 0, c) as real * (1.0 + 4.0 * amount)
            + Near(img, x, y, 1, 0, c) as real * -amount + Near(img, x, y, 0, 1, c) as real * -amount
  {
    KernelSumUnrolled(img, amount, x, y, c);
    KernelCorners(img, amount, x, y, c);
    KernelUpperLeftTaps(img, amount, x, y, c);
    KernelRightLowerTaps(img, amount, x, y, c);
    KernelCentreTap(img, amount, x, y, c);
    SumOfCross(KernelTap(img, amount, x, y, c, 0), KernelTap(img, amount, x, y, c, 1),
               KernelTap(img, amount, x, y, c, 2), KernelTap(img, amount, x, y, c, 3),
               KernelTap(img, amount, x, y, c, 4), KernelTap(img, amount, x, y, c, 5),
               KernelTap(img, amount, x, y, c, 6), KernelTap(img, amount, x, y, c, 7),
               KernelTap(img, amount, x, y, c, 8),
               Near(img, x, y, 0, -1, c) as real * -amount, Near(img, x, y, -1, 0, c) as real * -amount,
               Near(img, x, y, 0, 0, c) as real * (1.0 + 4.0 * amount),
               Near(img, x, y, 1, 0, c) as real * -amount, Near(img, x, y, 0, 1, c) as real * -amount);
  }

  /** The byte the sharpen filter stores in colour channel c of interior
      pixel (x, y): the five-point sum, clamped to [0, 255] and stored. */
  lemma SharpenInterior(img: Image, amount: real, x: int, y: int, c: int)
    requires img.Valid()
    requires 1 <= x < img.width - 1 && 1 <= y < img.height - 1 && 0 <= c < 3
    ensures 0 <= Offset(img.width, x, y, c) < |Sharpen(img, amount).data|
    ensures Sharpen(img, amount).data[Offset(img.width, x, y, c)] ==
            ToByte(Tone.Clamp(
              Near(img, x, y, 0, -1, c) as real * -amount + Near(img, x, y, -1, 0, c) as real * -amount
              + Near(img, x, y, 0, 0, c) as real * (1.0 + 4.0 * amount)
              + Near(img, x, y, 1, 0, c) as real * -amount + Near(img, x, y, 0, 1, c) as real * -amount))
  {
    PixelOfOffset(img.width, img.height, x, y, c);
    KernelSumNine(img, amount, x, y, c);
  }

  /** An image narrower or shorter than three pixels has no interior. */
  lemma NoInteriorWhenSmall(width: nat, height: nat, i: int)
    requires width < 3 || height < 3
    ensures !Interior(width, height, i)
  {
  }

  lemma SharpenSmallIsBlank(img: Image, amount: real)
    requires img.Valid()
    requires img.width < 3 || img.height < 3
    ensures Sharpen(img, amount).data == Blank(img.width, img.height).data
  {
    var out := Sharpen(img, amount);
    forall i | 0 <= i < |out.data|
      ensures out.data[i] == 0
    {
      NoInteriorWhenSmall(img.width, img.height, i);
    }
  }

  /** The horizontal and vertical Sobel responses of one channel, each divided
      by 3. On bytes each lies within 4 * 255 / 3 = 340 of zero, and each is
      zero when the image is mirror-symmetric across the pixel (left column
      equal to right column, or top row equal to bottom row). */
  function SobelX(img: Image, x: int, y: int, c: int): (g: real)
    requires img.Valid()
    requires 1 <= x < img.width - 1 && 1 <= y < img.height - 1 && 0 <= c < 3
    ensures -340.0 <= g <= 340.0
    ensures (&& Near(img, x, y, -1, -1, c) == Near(img, x, y, 1, -1, c)
             && Near(img, x, y, -1, 0, c) == Near(img, x, y, 1, 0, c)
             && Near(img, x, y, -1, 1, c) == Near(img, x, y, 1, 1, c)) ==> g == 0.0
  {
    (- Near(img, x, y, -1, -1, c) + Near(img, x, y, 1, -1, c)
     - 2 * Near(img, x, y, -1, 0, c) + 2 * Near(img, x, y, 1, 0, c)
     - Near(img, x, y, -1, 1, c) + Near(img, x, y, 1, 1, c)) as real / 3.0
  }

  function SobelY(img: Image, x: int, y: int, c: int): (g: real)
    requires img.Valid()
    requires 1 <= x < img.width - 1 && 1 <= y < img.height - 1 && 0 <= c < 3
    ensures -340.0 <= g <= 340.0
    ensures (&& Near(img, x, y, -1, -1, c) == Near(img, x, y, -1, 1, c)
             && Near(img, x, y, 0, -1, c) == Near(img, x, y, 0, 1, c)
             && Near(img, x, y, 1, -1, c) == Near(img, x, y, 1, 1, c)) ==> g == 0.0
  {
    (- Near(img, x, y, -1, -1, c) - 2 * Near(img, x, y, 0, -1, c) - Near(img, x, y, 1, -1, c)
     + Near(img, x, y, -1, 1, c) + 2 * Near(img, x, y, 0, 1, c) + Near(img, x, y, 1, 1, c)) as real / 3.0
  }

  /** The squared gradient magnitude: each component is the sum over the three
      colour channels of that channel's Sobel response divided by 3 (not a
      luma gradient). */
  function GradientSquared(img: Image, x: int, y: int): (m2: real)
    requires img.Valid()
    requires 1 <= x < img.width - 1 && 1 <= y < img.height - 1
    ensures m2 >= 0.0
  {
    var gx := SobelX(img, x, y, 0) + SobelX(img, x, y, 1) + SobelX(img, x, y, 2);
    var gy := SobelY(img, x, y, 0) + SobelY(img, x, y, 1) + SobelY(img, x, y, 2);
    gx * gx + gy * gy
  }

  /** Whether rounding scans past k: true unless sqrt(m2) < k + 0.5, or equals
      k + 0.5 with k even (round half to even), compared on squares. */
  predicate RoundsAbove(m2: real, k: int) {
    var h := k as real + 0.5;
    !(m2 < h * h || (m2 == h * h && k % 2 == 0))
  }

  function ScanRoot(m2: real, k: nat): (n: int)
    requires k <= 255
    requires k > 0 ==> RoundsAbove(m2, k - 1)
    decreases 255 - k
    ensures k <= n <= 255
    ensures n > 0 ==> RoundsAbove(m2, n - 1)
    ensures n < 255 ==> !RoundsAbove(m2, n)
  {
    if k == 255 || !RoundsAbove(m2, k) then k else ScanRoot(m2, k + 1)
  }

  /** The byte stored for `Math.min(255, Math.sqrt(m2))`, found without a
      square root: the least k whose upper rounding bound holds m2. */
  function ByteOfRoot(m2: real): (n: int)
    ensures IsByte(n)
    ensures n > 0 ==> RoundsAbove(m2, n - 1)
    ensures n < 255 ==> !RoundsAbove(m2, n)
  {
    ScanRoot(m2, 0)
  }

  /** Squaring is strictly increasing on the non-negative reals. */
  lemma SquareLess(a: real, b: real)
    requires 0.0 <= a < b
    ensures a * a < b * b
  {
    MulRightStrict(a, b, b);
    if a > 0.0 {
      MulRightStrict(a, b, a);
      assert b * a == a * b;
    } else {
      calc {
        a * a;
        0.0 * b;
      <
        b * b;
      }
    }
  }

  /** The byte a Uint8ClampedArray keeps for min(255, s) is the n that lies
      within a half of s, ties going to the even side. */
  lemma StoredByteBand(s: real, n: int)
    requires s >= 0.0 && 0 <= n <= 255
    requires n > 0 ==> n as real - 0.5 <= s && (s == n as real - 0.5 ==> n % 2 == 0)
    requires n < 255 ==> s <= n as real + 0.5 && (s == n as real + 0.5 ==> n % 2 == 0)
    ensures ToByte(if s < 255.0 then s else 255.0) == n
  {
    if 0 < n < 255 {
      if s < n as real {
        assert s.Floor == n - 1;
      } else {
        assert s.Floor == n;
      }
    } else if n == 255 && s < 255.0 {
      assert s.Floor == 254;
    }
  }

  /** Not rounding past k - 1 puts the root at or above k - 0.5. */
  lemma RootAboveBand(m2: real, s: real, n: int)
    requires s >= 0.0 && s * s == m2 && n > 0
    requires RoundsAbove(m2, n - 1)
    ensures n as real - 0.5 <= s
    ensures s == n as real - 0.5 ==> n % 2 == 0
  {
    var lo := n as real - 0.5;
    assert lo == (n - 1) as real + 0.5;
    if s < lo {
      SquareLess(s, lo);
      assert false;
    }
  }

  /** Stopping at n puts the root at or below n + 0.5. */
  lemma RootBelowBand(m2: real, s: real, n: int)
    requires s >= 0.0 && s * s == m2 && n >= 0
    requires !RoundsAbove(m2, n)
    ensures s <= n as real + 0.5
    ensures s == n as real + 0.5 ==> n % 2 == 0
  {
    var hi := n as real + 0.5;
    if hi < s {
      SquareLess(hi, s);
      assert false;
    }
  }

  /** ByteOfRoot agrees with storing `Math.min(255, s)` into a byte, for the
      non-negative square root s of m2. */
  lemma ByteOfRootIsStoredRoot(m2: real, s: real)
    requires s >= 0.0 && s * s == m2
    ensures ByteOfRoot(m2) == ToByte(if s < 255.0 then s else 255.0)
  {
    var n := ByteOfRoot(m2);
    if n > 0 {
      RootAboveBand(m2, s, n);
    }
    if n < 255 {
      RootBelowBand(m2, s, n);
    }
    StoredByteBand(s, n);
  }

  function EdgeAt(img: Image, i: int): (v: int)
    requires img.Valid() && 0 <= i < |img.data|
    ensures IsByte(v)
  {
    DecodeIndex(img.width, img.height, i);
    if Interior(img.width, img.height, i) then
      if i % 4 == 3 then 255
      else ByteOfRoot(GradientSquared(img, ColumnOf(img.width, i), RowOf(img.width, i)))
    else 0
  }

  /** The edge value of every channel index, border ring zero and interior
      alpha opaque. */
  function EdgeMap(img: Image): (d: seq<int>)
    requires img.Valid()
    ensures |d| == |img.data|
    ensures forall i | 0 <= i < |d| :: d[i] == EdgeAt(img, i) && IsByte(d[i])
    ensures forall i | 0 <= i < |d| && !Interior(img.width, img.height, i) :: d[i] == 0
    ensures forall i | 0 <= i < |d| && Interior(img.width, img.height, i) && i % 4 == 3 :: d[i] == 255
  {
    seq(|img.data|, i requires 0 <= i < |img.data| => EdgeAt(img, i))
  }

  /** The edge value of colour channel c of interior pixel (x, y) is the
      rounded root of the pixel's squared gradient, that is the byte stored
      for `Math.min(255, s)` where s is the root. */
  lemma EdgeAtInterior(img: Image, x: int, y: int, c: int, s: real)
    requires img.Valid()
    requires 1 <= x < img.width - 1 && 1 <= y < img.height - 1 && 0 <= c < 3
    requires s >= 0.0 && s * s == GradientSquared(img, x, y)
    ensures 0 <= Offset(img.width, x, y, c) < |img.data|
    ensures EdgeAt(img, Offset(img.width, x, y, c)) == ToByte(if s < 255.0 then s else 255.0)
  {
    PixelOfOffset(img.width, img.height, x, y, c);
    ByteOfRootIsStoredRoot(GradientSquared(img, x, y), s);
  }

  /** The byte the edge filter stores in colour channel c of interior pixel
      (x, y): `Math.min(255, Math.sqrt(gx*gx + gy*gy))` stored into a byte,
      where s is the non-negative root of the squared gradient. */
  lemma EdgeStoresRoot(img: Image, x: int, y: int, c: int, s: real)
    requires img.Valid()
    requires 1 <= x < img.width - 1 && 1 <= y < img.height - 1 && 0 <= c < 3
    requires s >= 0.0 && s * s == GradientSquared(img, x, y)
    ensures 0 <= Offset(img.width, x, y, c) < |EdgeDetect(img).data|
    ensures EdgeDetect(img).data[Offset(img.width, x, y, c)] == ToByte(if s < 255.0 then s else 255.0)
  {
    EdgeAtInterior(img, x, y, c, s);
    assert EdgeDetect(img).data == EdgeMap(img);
  }

  /** The three colour channels of one pixel get the same edge value. */
  lemma EdgeSamePixel(img: Image, i: int)
    requires img.Valid() && 0 <= i < |img.data| && i % 4 < 3
    ensures EdgeAt(img, i) == EdgeAt(img, i - i % 4)
  {
    var p := i / 4;
    var k := i % 4;
    assert i == 4 * p + k && i - i % 4 == 4 * p;
    SamePixel(img.width, p, k);
    SamePixel(img.width, p, 0);
  }

  /** `applyEdgeDetection`: a same-size grey buffer (the green and blue bytes of
      every pixel equal its red byte), border ring all zero, interior opaque. */
  function EdgeDetect(img: Image): (out: Image)
    requires img.Valid()
    ensures out.Valid() && out.width == img.width && out.height == img.height
    ensures forall i | 0 <= i < |out.data| && !Interior(img.width, img.height, i) :: out.data[i] == 0
    ensures forall i | 0 <= i < |out.data| && Interior(img.width, img.height, i) && i % 4 == 3 :: out.data[i] == 255
    ensures forall i | 0 <= i < |out.data| && i % 4 < 3 :: out.data[i] == out.data[i - i % 4]
  {
    var d := EdgeMap(img);
    forall i | 0 <= i < |d| && i % 4 < 3
      ensures d[i] == d[i - i % 4]
    {
      EdgeSamePixel(img, i);
    }
    Image(img.width, img.height, d)
  }

  /** An image whose pixels all share one RGB has no edges: every interior
      channel of the edge map is zero. */
  lemma EdgeOfFlatImage(img: Image)
    requires img.Valid() && |img.data| >= 4
    requires forall i | 0 <= i < |img.data| && i % 4 < 3 :: img.data[i] == img.data[i % 4]
    ensures forall i | 0 <= i < |img.data| && Interior(img.width, img.height, i) && i % 4 < 3 :: EdgeDetect(img).data[i] == 0
  {
    assert EdgeDetect(img).data == EdgeMap(img);
    forall i | 0 <= i < |img.data| && Interior(img.width, img.height, i) && i % 4 < 3
      ensures EdgeAt(img, i) == 0
    {
      EdgeOfFlatAt(img, i);
    }
  }

  /** One colour byte of an interior pixel of a flat buffer. */
  lemma EdgeOfFlatAt(img: Image, i: int)
    requires img.Valid() && 0 <= i < |img.data|
    requires forall i | 0 <= i < |img.data| && i % 4 < 3 :: img.data[i] == img.data[i % 4]
    requires Interior(img.width, img.height, i) && i % 4 < 3
    ensures EdgeAt(img, i) == 0
  {
    DecodeIndex(img.width, img.height, i);
    var x := ColumnOf(img.width, i);
    var y := RowOf(img.width, i);
    FlatChannel(img, x, y, 0);
    FlatChannel(img, x, y, 1);
    FlatChannel(img, x, y, 2);
    assert GradientSquared(img, x, y) == 0.0;
  }

  /** Both Sobel responses of one channel vanish around a pixel of a flat buffer. */
  lemma FlatChannel(img: Image, x: int, y: int, c: int)
    requires img.Valid() && 1 <= x < img.width - 1 && 1 <= y < img.height - 1 && 0 <= c < 3
    requires forall i | 0 <= i < |img.data| && i % 4 < 3 :: img.data[i] == img.data[i % 4]
    ensures SobelX(img, x, y, c) == 0.0 && SobelY(img, x, y, c) == 0.0
  {
    forall dx, dy | -1 <= dx <= 1 && -1 <= dy <= 1
      ensures Near(img, x, y, dx, dy, c) == img.data[c]
    {
      OffsetInRange(img.width, img.height, x + dx, y + dy, c);
    }
  }

  lemma EdgeSmallIsBlank(img: Image)
    requires img.Valid()
    requires img.width < 3 || img.height < 3
    ensures EdgeDetect(img).data == Blank(img.width, img.height).data
  {
    var out := EdgeDetect(img);
    forall i | 0 <= i < |out.data|
      ensures out.data[i] == 0
    {
      NoInteriorWhenSmall(img.width, img.height, i);
    }
  }
}
