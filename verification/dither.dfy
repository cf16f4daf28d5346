/** The error-diffusion step of the converter (`distributeError`): a
    Floyd-Steinberg spread of a per-channel error into the four buffer slots
    after a pixel that stand for its forward neighbours, written into the same
    Uint8ClampedArray. */
module Dither {
  import opened Pixels

  /** A tap at pixel offset (dx, dy), taken as `(dy * width + dx) * 4` in the
      flat buffer, that receives `weight` of the error. */
  datatype Tap = Tap(dx: int, dy: int, weight: real)

  /** The four taps, in the order the source visits them. */
  const Taps: seq<Tap> := [Tap(1, 0, 7.0 / 16.0), Tap(-1, 1, 3.0 / 16.0), Tap(0, 1, 5.0 / 16.0), Tap(1, 1, 1.0 / 16.0)]

  /** The buffer index of the red channel of a tap's pixel. */
  function TapOffset(offset: int, width: int, t: Tap): int {
    offset + (t.dy * width + t.dx) * 4
  }

  /** `data[i] += v` on a Uint8ClampedArray; a write outside the array is dropped. */
  function AddAt(data: seq<int>, i: int, v: real): (d: seq<int>)
    ensures |d| == |data|
    ensures forall j | 0 <= j < |data| && j != i :: d[j] == data[j]
    ensures 0 <= i < |data| ==> IsByte(d[i])
  {
    if 0 <= i < |data| then data[i := ToByte(data[i] as real + v)] else data
  }

  /** Index i is one of the R, G, B channels of one of the taps. */
  predicate NearTap(offset: int, width: int, i: int, taps: seq<Tap>)
    decreases |taps|
  {
    |taps| > 0 && (0 <= i - TapOffset(offset, width, taps[0]) < 3 || NearTap(offset, width, i, taps[1..]))
  }

  /** Index i is an R, G or B channel of one of the four buffer slots the
      taps address, relative to the pixel at `offset`: +4 (the next slot),
      4 * width - 4, 4 * width and 4 * width + 4 (the slots one row further
      on, shifted by one pixel either way). These are the right, lower-left,
      lower and lower-right neighbours for an interior column; at column 0
      the lower-left slot is the last pixel of the same row, and at the last
      column the right and lower-right slots are the first pixels of the
      next rows, because the offsets are never checked against the row. */
  predicate NeighbourRgb(offset: int, width: int, i: int) {
    var r := i - offset;
    || 4 <= r < 7
    || 4 * width - 4 <= r < 4 * width - 1
    || 4 * width <= r < 4 * width + 3
    || 4 * width + 4 <= r < 4 * width + 7
  }

  lemma NearTapIsNeighbour(offset: int, width: int, i: int)
    requires NearTap(offset, width, i, Taps)
    ensures NeighbourRgb(offset, width, i)
  {
    var t1 := Taps[1..];
    var t2 := t1[1..];
    var t3 := t2[1..];
    assert t3[1..] == [];
    assert TapOffset(offset, width, Taps[0]) == offset + 4;
    assert TapOffset(offset, width, t1[0]) == offset + 4 * width - 4;
    assert TapOffset(offset, width, t2[0]) == offset + 4 * width;
    assert TapOffset(offset, width, t3[0]) == offset + 4 * width + 4;
  }

  /** The channels NeighbourRgb names are never alpha channels. */
  lemma NeighbourIsNotAlpha(offset: int, width: int, i: int)
    requires offset % 4 == 0 && i % 4 == 3
    ensures !NeighbourRgb(offset, width, i)
  {
    var r := i - offset;
    assert r % 4 == 3;
    assert (r - 4 * width) % 4 == 3;
  }

  /** Applies the taps in order, each to the channels of a pixel whose red
      index lies inside the array. */
  function Spread(data: seq<int>, offset: int, width: int, errR: real, errG: real, errB: real, taps: seq<Tap>): (d: seq<int>)
    decreases |taps|
    ensures |d| == |data|
    ensures forall i | 0 <= i < |data| && d[i] != data[i] :: NearTap(offset, width, i, taps)
  {
    if |taps| == 0 then data
    else
      var t := taps[0];
      var o := TapOffset(offset, width, t);
      var d := if 0 <= o < |data|
               then AddAt(AddAt(AddAt(data, o, errR * t.weight), o + 1, errG * t.weight), o + 2, errB * t.weight)
               else data;
      Spread(d, offset, width, errR, errG, errB, taps[1..])
  }

  /** `distributeError(data, offset, width, errR, errG, errB)`. The array keeps
      its length and only the RGB channels of the four tap slots can change;
      alpha channels never do. */
  function DistributeError(data: seq<int>, offset: int, width: int, errR: real, errG: real, errB: real): (d: seq<int>)
    ensures |d| == |data|
    ensures forall i | 0 <= i < |data| && d[i] != data[i] :: NeighbourRgb(offset, width, i)
    ensures offset % 4 == 0 ==> forall i | 0 <= i < |data| && i % 4 == 3 :: d[i] == data[i]
  {
    var d := Spread(data, offset, width, errR, errG, errB, Taps);
    forall i | 0 <= i < |data| && d[i] != data[i]
      ensures NeighbourRgb(offset, width, i)
      ensures offset % 4 == 0 ==> i % 4 != 3
    {
      NearTapIsNeighbour(offset, width, i);
      if offset % 4 == 0 && i % 4 == 3 {
        NeighbourIsNotAlpha(offset, width, i);
      }
    }
    d
  }

  /** Spreading a zero error over a byte array changes nothing. */
  lemma {:induction false} SpreadZero(data: seq<int>, offset: int, width: int, taps: seq<Tap>)
    requires forall i | 0 <= i < |data| :: IsByte(data[i])
    ensures Spread(data, offset, width, 0.0, 0.0, 0.0, taps) == data
    decreases |taps|
  {
    if |taps| > 0 {
      var t := taps[0];
      var o := TapOffset(offset, width, t);
      if 0 <= o < |data| {
        var d1 := AddAt(data, o, 0.0 * t.weight);
        ToByteOfByte(data[o]);
        assert d1 == data;
        var d2 := AddAt(d1, o + 1, 0.0 * t.weight);
        if o + 1 < |data| {
          ToByteOfByte(data[o + 1]);
        }
        assert d2 == data;
        var d3 := AddAt(d2, o + 2, 0.0 * t.weight);
        if o + 2 < |data| {
          ToByteOfByte(data[o + 2]);
        }
        assert d3 == data;
      }
      SpreadZero(data, offset, width, taps[1..]);
    }
  }

  /** With every error zero, distributeError leaves the array as it was. */
  lemma DistributeZero(data: seq<int>, offset: int, width: int)
    requires forall i | 0 <= i < |data| :: IsByte(data[i])
    ensures DistributeError(data, offset, width, 0.0, 0.0, 0.0) == data
  {
    SpreadZero(data, offset, width, Taps);
  }
}
