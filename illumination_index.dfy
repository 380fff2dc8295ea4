/**
 * The start of `extractIlluminationIndex` (RobustCarvingFrame/RGBD/
 * illumination_index.swift): the index table is allocated, and each frame,
 * drawn into a tightly packed RGBA byte buffer, is scanned for its largest
 * BT.709 luma (ITU-R BT.709, Part 1, item 3.2).
 */
module IlluminationIndex {
  import opened Bytes

  /** `illuminationIndex` as allocated: one `[0, 0]` row per frame. */
  function InitialIlluminationIndex(numFrames: nat): (index: seq<seq<real>>)
    ensures |index| == numFrames
    ensures forall i | 0 <= i < numFrames :: index[i] == [0.0, 0.0]
  {
    seq(numFrames, _ => [0.0, 0.0])
  }

  /** Luma with the BT.709 weights; alpha takes no part. */
  function Luma(red: Byte, green: Byte, blue: Byte): (l: real)
    ensures 0.0 <= l <= 255.0
  {
    0.2126 * red as real + 0.7152 * green as real + 0.0722 * blue as real
  }

  /** The luma of pixel `p` of a buffer with 4 bytes per pixel. */
  function PixelLuma(data: seq<Byte>, p: nat): real
    requires 4 * p + 3 < |data|
  {
    Luma(data[4 * p], data[4 * p + 1], data[4 * p + 2])
  }

  /** `maxValue` after the first `n` pixels in buffer order: 0 to start with, then the running maximum. */
  function MaxLuma(data: seq<Byte>, n: nat): real
    requires 4 * n <= |data|
  {
    if n == 0 then 0.0 else Max(MaxLuma(data, n - 1), PixelLuma(data, n - 1))
  }

  /**
   * `m` is `max(0, largest luma)` over the first `n` pixels: in `[0, 255]`,
   * no smaller than any of their lumas, and either 0 or the luma of one of
   * them.
   */
  predicate IsFrameMaximum(data: seq<Byte>, n: nat, m: real)
    requires 4 * n <= |data|
  {
    0.0 <= m <= 255.0 &&
    (forall p | 0 <= p < n :: PixelLuma(data, p) <= m) &&
    (m == 0.0 || exists p | 0 <= p < n :: PixelLuma(data, p) == m)
  }

  /** The running maximum is what its name says. */
  lemma {:induction false} MaxLumaIsMaximum(data: seq<Byte>, n: nat)
    requires 4 * n <= |data|
    ensures IsFrameMaximum(data, n, MaxLuma(data, n))
  {
    if n > 0 {
      MaxLumaIsMaximum(data, n - 1);
    }
  }

  /** There is only one such maximum. */
  lemma FrameMaximumUnique(data: seq<Byte>, n: nat, m: real, m': real)
    requires 4 * n <= |data|
    requires IsFrameMaximum(data, n, m) && IsFrameMaximum(data, n, m')
    ensures m == m'
  {
  }

  /** `maxValue` never decreases as the scan goes on. */
  lemma {:induction false} MaxLumaGrows(data: seq<Byte>, m: nat, n: nat)
    requires m <= n && 4 * n <= |data|
    ensures MaxLuma(data, m) <= MaxLuma(data, n)
    decreases n
  {
    if m < n {
      MaxLumaGrows(data, m, n - 1);
    }
  }

  /**
   * Where row `y` of a `width × height` frame starts and ends: the pixels
   * before row `y`, column `x` number `y · width + x`, and when `x` is a
   * column of the row, that pixel lies inside the frame and its four bytes
   * inside the `4 · width · height`-byte buffer.
   */
  lemma ScanPosition(x: nat, y: nat, width: nat, height: nat)
    requires x <= width && y < height
    ensures 0 <= y * width
    ensures y * width + x <= width * height
    ensures y * width + width == (y + 1) * width
    ensures x < width ==> y * width + x < width * height && 4 * (y * width + x) + 3 < 4 * (width * height)
  {
    MulLeq(y + 1, height, width);
    assert height * width == width * height;
  }

  /** One more pixel of the scan: the running maximum takes in the luma read at byte `offset · 4`. */
  lemma ScanStep(data: seq<Byte>, offset: nat)
    requires offset * 4 + 3 < |data|
    ensures MaxLuma(data, offset + 1) ==
      Max(MaxLuma(data, offset), Luma(data[offset * 4], data[offset * 4 + 1], data[offset * 4 + 2]))
  {
    assert offset * 4 == 4 * offset;
  }

  /** The pixel loop of `extractIlluminationIndex` over one frame of `width × height` pixels. */
  method FrameMaxLuma(data: seq<Byte>, width: nat, height: nat) returns (maxValue: real)
    requires |data| == 4 * (width * height)
    ensures maxValue == MaxLuma(data, width * height)
  {
    maxValue := 0.0;
    for y := 0 to height
      invariant y * width <= width * height
      invariant maxValue == MaxLuma(data, y * width)
    {
      ghost var rowStart := y * width;
      ScanPosition(width, y, width, height);
      for x := 0 to width
        invariant maxValue == MaxLuma(data, rowStart + x)
      {
        var offset := y * width + x;
        ScanStep(data, offset);
        var red := data[offset * 4];
        var green := data[offset * 4 + 1];
        var blue := data[offset * 4 + 2];
        var alpha := data[offset * 4 + 3];
        var intensity := 0.2126 * red as real + 0.7152 * green as real + 0.0722 * blue as real;
        maxValue := Max(maxValue, intensity);
      }
    }
  }

  /** An all-black frame has maximum luma 0, whatever its alpha bytes (an opaque black pixel is (0, 0, 0, 255)). */
  lemma {:induction false} BlackFrame(data: seq<Byte>, n: nat)
    requires 4 * n <= |data|
    requires forall i | 0 <= i < |data| && i % 4 != 3 :: data[i] == 0
    ensures MaxLuma(data, n) == 0.0
  {
    if n > 0 {
      BlackFrame(data, n - 1);
      var p := n - 1;
      assert (4 * p) % 4 == 0 && (4 * p + 1) % 4 == 1 && (4 * p + 2) % 4 == 2;
      assert data[4 * p] == 0 && data[4 * p + 1] == 0 && data[4 * p + 2] == 0;
      assert PixelLuma(data, p) == 0.0;
    }
  }

  /** A frame with a white pixel has maximum luma 255: the weights add up to 1. */
  lemma WhitePixel(data: seq<Byte>, n: nat, p: nat)
    requires 4 * n <= |data| && p < n
    requires data[4 * p] == 255 && data[4 * p + 1] == 255 && data[4 * p + 2] == 255
    ensures MaxLuma(data, n) == 255.0
  {
    MaxLumaIsMaximum(data, n);
    assert PixelLuma(data, p) == 255.0;
  }

  /** The alpha bytes do not matter: frames that differ only in alpha have the same maximum. */
  lemma {:induction false} AlphaIgnored(data: seq<Byte>, other: seq<Byte>, n: nat)
    requires 4 * n <= |data| && |other| == |data|
    requires forall i | 0 <= i < |data| && i % 4 != 3 :: other[i] == data[i]
    ensures MaxLuma(other, n) == MaxLuma(data, n)
  {
    if n > 0 {
      AlphaIgnored(data, other, n - 1);
      var p := n - 1;
      assert (4 * p) % 4 == 0 && (4 * p + 1) % 4 == 1 && (4 * p + 2) % 4 == 2;
      assert PixelLuma(other, p) == PixelLuma(data, p);
    }
  }
}
