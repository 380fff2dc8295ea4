/**
 * `UIImage.greenify` of the shadow-extraction playground
 * (image_processing/ExtractShadow/GetPixels.playground/Contents.swift): in a
 * fixed region of interest of an RGBA byte buffer, every pixel whose green
 * byte is below 10 gets its red byte set to 255.
 */
module ShadowExtraction {
  import opened Bytes

  /** The region of interest: rows 550 to 2449, columns 2330 to 2799. */
  const RoiTop: int := 550
  const RoiBottom: int := 2450
  const RoiLeft: int := 2330
  const RoiRight: int := 2800

  /** Green bytes below this mark a shadow pixel. */
  const ShadowGreen: int := 10

  predicate InRoi(row: int, column: int)
  {
    RoiTop <= row < RoiBottom && RoiLeft <= column < RoiRight
  }

  /** `(y * bytesPerRow) + (x * bytesPerPixel)` with 4 bytes per pixel. */
  function ByteIndex(width: nat, y: nat, x: nat): nat
  {
    y * (4 * width) + x * 4
  }

  /** The row of the pixel that byte `i` belongs to. */
  function RowOf(width: nat, i: nat): nat
    requires 0 < width
  {
    (i / 4) / width
  }

  /** The column of the pixel that byte `i` belongs to. */
  function ColumnOf(width: nat, i: nat): nat
    requires 0 < width
  {
    (i / 4) % width
  }

  /** Byte `i` is the red byte of a pixel of the region of interest. */
  predicate RoiRed(width: nat, i: nat)
    requires 0 < width
  {
    i % 4 == 0 && InRoi(RowOf(width, i), ColumnOf(width, i))
  }

  /** Pixel `(row, column)` comes before pixel `(y, x)` in the loop order, rows first. */
  predicate Before(row: int, column: int, y: int, x: int)
  {
    row < y || (row == y && column < x)
  }

  /**
   * Byte `i` after the loop has reached pixel `(y, x)`: set to 255 when it is
   * the red byte of an earlier pixel of the region whose green byte is below
   * the mark, as it was otherwise.
   */
  function ShadowedByteUpTo(s: seq<Byte>, width: nat, y: int, x: int, i: nat): Byte
    requires 0 < width && i < |s|
  {
    if RoiRed(width, i) && Before(RowOf(width, i), ColumnOf(width, i), y, x) && i + 1 < |s| && s[i + 1] < ShadowGreen
    then 255 else s[i]
  }

  /** The buffer after the whole loop. */
  function Shadowed(s: seq<Byte>, width: nat): seq<Byte>
    requires 0 < width
  {
    seq(|s|, i requires 0 <= i < |s| =>
      if RoiRed(width, i) && i + 1 < |s| && s[i + 1] < ShadowGreen then 255 else s[i])
  }

  /** Byte index `4 · (y · width + x)` belongs to pixel `(y, x)` when `x` lies inside a row. */
  lemma ByteIndexDecodes(width: nat, y: nat, x: nat)
    requires x < width
    ensures ByteIndex(width, y, x) % 4 == 0
    ensures RowOf(width, ByteIndex(width, y, x)) == y && ColumnOf(width, ByteIndex(width, y, x)) == x
  {
    var p := y * width + x;
    assert ByteIndex(width, y, x) == 4 * p;
    assert (4 * p) / 4 == p;
    RowColumn(x, y, width);
  }

  /** A red byte is the red byte of the pixel its row and column name. */
  lemma ByteIndexOfRed(width: nat, i: nat)
    requires 0 < width && i % 4 == 0
    ensures i == ByteIndex(width, RowOf(width, i), ColumnOf(width, i))
  {
    var p := i / 4;
    assert p == RowOf(width, i) * width + ColumnOf(width, i);
  }

  /** Every pixel the loop visits lies inside a buffer of `4 · width · height` bytes. */
  lemma RoiInBuffer(width: nat, height: nat, y: nat, x: nat)
    requires RoiRight <= width && RoiBottom <= height && InRoi(y, x)
    ensures ByteIndex(width, y, x) + 3 < 4 * width * height
  {
    MulLeq(y + 1, height, width);
    assert ByteIndex(width, y, x) + 3 < 4 * (y * width + width);
    assert (y + 1) * width == y * width + width;
  }

  /** The nested row and column loops of `greenify` over the region of interest, writing the buffer in place. */
  method ShadowGreenify(rawData: array<Byte>, width: nat, height: nat)
    requires RoiRight <= width && RoiBottom <= height
    requires rawData.Length == 4 * width * height
    modifies rawData
    ensures rawData[..] == Shadowed(old(rawData[..]), width)
  {
    ghost var original := rawData[..];
    for y := 550 to 2450
      invariant forall i | 0 <= i < rawData.Length :: rawData[i] == ShadowedByteUpTo(original, width, y, 0, i)
    {
      for x := 2330 to 2800
        invariant forall i | 0 <= i < rawData.Length :: rawData[i] == ShadowedByteUpTo(original, width, y, x, i)
      {
        var byteIndex := (y * (4 * width)) + (x * 4);
        assert byteIndex == ByteIndex(width, y, x);
        RoiInBuffer(width, height, y, x);
        ByteIndexDecodes(width, y, x);
        assert rawData[byteIndex + 1] == original[byteIndex + 1] by {
          assert (byteIndex + 1) % 4 == 1;
        }
        if rawData[byteIndex + 1] < 10 {
          rawData[byteIndex] := 255;
        }
        forall i | 0 <= i < rawData.Length
          ensures rawData[i] == ShadowedByteUpTo(original, width, y, x + 1, i)
        {
          if i != byteIndex && RoiRed(width, i) && RowOf(width, i) == y && ColumnOf(width, i) == x {
            ByteIndexOfRed(width, i);
          }
        }
      }
    }
    assert forall i | 0 <= i < rawData.Length :: rawData[i] == Shadowed(original, width)[i];
  }

  /** Only red bytes of the region change, and only to 255 where the green byte is below the mark. */
  lemma ShadowChangesOnlyRoiRed(s: seq<Byte>, width: nat, i: nat)
    requires 0 < width && i < |s|
    requires Shadowed(s, width)[i] != s[i]
    ensures RoiRed(width, i) && i + 1 < |s| && s[i + 1] < ShadowGreen && Shadowed(s, width)[i] == 255
  {
  }

  /**
   * At a pixel `(y, x)` of the region, the red byte becomes 255 exactly when
   * the green byte is below the mark and is kept otherwise; green, blue and
   * alpha are kept.
   */
  lemma ShadowPixel(s: seq<Byte>, width: nat, height: nat, y: nat, x: nat)
    requires RoiRight <= width && RoiBottom <= height && |s| == 4 * width * height && InRoi(y, x)
    ensures var b := ByteIndex(width, y, x);
      b + 3 < |s| &&
      Shadowed(s, width)[b] == (if s[b + 1] < ShadowGreen then 255 else s[b]) &&
      Shadowed(s, width)[b + 1] == s[b + 1] && Shadowed(s, width)[b + 2] == s[b + 2] &&
      Shadowed(s, width)[b + 3] == s[b + 3]
  {
    RoiInBuffer(width, height, y, x);
    ByteIndexDecodes(width, y, x);
    var b := ByteIndex(width, y, x);
    assert (b + 1) % 4 == 1 && (b + 2) % 4 == 2 && (b + 3) % 4 == 3;
  }

  /** A pixel outside the region keeps all four of its bytes. */
  lemma OutsideRoiUnchanged(s: seq<Byte>, width: nat, y: nat, x: nat)
    requires x < width && !InRoi(y, x) && ByteIndex(width, y, x) + 3 < |s|
    ensures var b := ByteIndex(width, y, x);
      Shadowed(s, width)[b] == s[b] && Shadowed(s, width)[b + 1] == s[b + 1] &&
      Shadowed(s, width)[b + 2] == s[b + 2] && Shadowed(s, width)[b + 3] == s[b + 3]
  {
    ByteIndexDecodes(width, y, x);
    var b := ByteIndex(width, y, x);
    assert (b + 1) % 4 == 1 && (b + 2) % 4 == 2 && (b + 3) % 4 == 3;
  }

  /** Running the edit a second time changes nothing: it never writes a green byte. */
  lemma ShadowIdempotent(s: seq<Byte>, width: nat)
    requires 0 < width
    ensures Shadowed(Shadowed(s, width), width) == Shadowed(s, width)
  {
    var t := Shadowed(s, width);
    forall i | 0 <= i < |s| && RoiRed(width, i) && i + 1 < |s|
      ensures t[i + 1] == s[i + 1]
    {
      assert (i + 1) % 4 == 1;
    }
  }
}
