/**
 * `UIImage.greenify` of the pixel playground
 * (image_processing/GetPixels.playground/Contents.swift): a pass over an
 * RGBA byte buffer that halves every dark green byte and doubles every other
 * one, with `UInt8` shifts written out as arithmetic.
 */
module GreenShift {
  import opened Bytes

  /** Green bytes below this are halved rather than doubled. */
  const DarkGreen: int := 20

  /** `UInt8 >> 1`: the low bit is shifted out, so twice the result is `b` or `b - 1`. */
  function ShiftRight(b: Byte): (r: Byte)
    ensures 2 * r <= b <= 2 * r + 1
  {
    b / 2
  }

  /** `UInt8 << 1`: the high bit is shifted out, so doubling loses 256 from 128 on; the result is even. */
  function ShiftLeft(b: Byte): (r: Byte)
    ensures r == (if b < 128 then 2 * b else 2 * b - 256)
    ensures r % 2 == 0
  {
    (b * 2) % 256
  }

  /** The new green byte: shifted right below the mark, shifted left otherwise. */
  function ShiftGreen(g: Byte): (r: Byte)
  {
    if g < DarkGreen then ShiftRight(g) else ShiftLeft(g)
  }

  /** A dark green byte is halved, and ends up below 10; a dark non-zero one gets darker. */
  lemma ShiftDark(g: Byte)
    requires g < DarkGreen
    ensures ShiftGreen(g) < 10
    ensures ShiftGreen(g) <= g && (g > 0 ==> ShiftGreen(g) < g)
    ensures 2 * ShiftGreen(g) <= g <= 2 * ShiftGreen(g) + 1
  {
  }

  /**
   * Any other green byte is doubled, and loses 256 when it is 128 or more:
   * the result is always even, and only greens below 128 get brighter.
   */
  lemma ShiftBright(g: Byte)
    requires DarkGreen <= g
    ensures ShiftGreen(g) % 2 == 0
    ensures g < 128 ==> ShiftGreen(g) == 2 * g && ShiftGreen(g) > g
    ensures 128 <= g ==> ShiftGreen(g) == 2 * g - 256 && ShiftGreen(g) < g
  {
  }

  /** The byte at index `i` is a green byte. */
  predicate IsGreen(i: int)
  {
    i % 4 == 1
  }

  /** The buffer after the pass: green bytes shifted, all others as they were. */
  function GreenShifted(s: seq<Byte>): seq<Byte>
  {
    seq(|s|, i requires 0 <= i < |s| => if IsGreen(i) then ShiftGreen(s[i]) else s[i])
  }

  /**
   * The body of `greenify`: the buffer holds `4 · width · height` bytes, and
   * the loop runs over all of them, writing the buffer in place.
   */
  method GreenShiftPass(rawData: array<Byte>, width: nat, height: nat)
    requires rawData.Length == 4 * width * height
    modifies rawData
    ensures rawData[..] == GreenShifted(old(rawData[..]))
  {
    var bytesPerPixel := 4;
    var bytesPerRow := bytesPerPixel * width;
    var bitmapByteCount := bytesPerRow * height;
    assert bitmapByteCount == 4 * (width * height);
    ShiftGreens(rawData, bitmapByteCount);
  }

  /** The `while` loop of `greenify` over a buffer of `bitmapByteCount` bytes, one pixel of four bytes at a time. */
  method ShiftGreens(rawData: array<Byte>, bitmapByteCount: nat)
    requires rawData.Length == bitmapByteCount && bitmapByteCount % 4 == 0
    modifies rawData
    ensures rawData[..] == GreenShifted(old(rawData[..]))
  {
    ghost var original := rawData[..];
    var byteIndex := 0;
    while byteIndex < bitmapByteCount
      invariant 0 <= byteIndex <= bitmapByteCount && byteIndex % 4 == 0
      invariant rawData[..] == ShiftedUpTo(original, byteIndex)
    {
      ShiftedStep(original, byteIndex);
      ShiftGreenByte(rawData, byteIndex + 1);
      byteIndex := byteIndex + 4;
    }
    assert ShiftedUpTo(original, byteIndex) == GreenShifted(original);
  }

  /** The buffer once the loop has passed the first `n` bytes. */
  ghost function ShiftedUpTo(s: seq<Byte>, n: nat): seq<Byte>
  {
    seq(|s|, i requires 0 <= i < |s| => if i < n && IsGreen(i) then ShiftGreen(s[i]) else s[i])
  }

  /** One pixel further: only its green byte changes. */
  lemma ShiftedStep(s: seq<Byte>, n: nat)
    requires n % 4 == 0 && n + 4 <= |s|
    ensures ShiftedUpTo(s, n + 4) == ShiftedUpTo(s, n)[n + 1 := ShiftGreen(s[n + 1])]
  {
    assert !IsGreen(n) && IsGreen(n + 1) && !IsGreen(n + 2) && !IsGreen(n + 3);
  }

  /** The body of the `while` loop: the green byte at `greenIndex` is shifted in place. */
  method ShiftGreenByte(rawData: array<Byte>, greenIndex: nat)
    requires greenIndex < rawData.Length
    modifies rawData
    ensures rawData[..] == old(rawData[..])[greenIndex := ShiftGreen(old(rawData[greenIndex]))]
  {
    if rawData[greenIndex] < DarkGreen {
      rawData[greenIndex] := ShiftRight(rawData[greenIndex]);
    } else {
      rawData[greenIndex] := ShiftLeft(rawData[greenIndex]);
    }
  }

  /** Red, blue and alpha bytes are never touched. */
  lemma OnlyGreenChanges(s: seq<Byte>, i: nat)
    requires i < |s| && !IsGreen(i)
    ensures GreenShifted(s)[i] == s[i]
  {
  }

  /** Each new green byte depends on that pixel's old green byte alone. */
  lemma GreenDependsOnGreen(s: seq<Byte>, t: seq<Byte>, i: nat)
    requires i < |s| && i < |t| && IsGreen(i) && s[i] == t[i]
    ensures GreenShifted(s)[i] == GreenShifted(t)[i]
  {
  }

  /**
   * The pass is not invertible: the bright greens 128 and 255 land on 0 and
   * 254, the same values as the greens 0 and 127 do.
   */
  lemma ShiftLosesTopBit()
    ensures ShiftGreen(128) == ShiftGreen(0) == 0
    ensures ShiftGreen(255) == ShiftGreen(127) == 254
  {
  }
}
