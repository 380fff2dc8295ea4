/** Byte-level vocabulary and arithmetic facts shared by the modules of the model. */
module Bytes {

  /** One 8-bit channel value, as `UInt8` in the source. */
  type Byte = b: int | 0 <= b < 256

  /** The larger of two reals (`max` on `Double` in the source). */
  function Max(a: real, b: real): (m: real)
    ensures a <= m && b <= m
    ensures m == a || m == b
  {
    if a >= b then a else b
  }

  /** Monotonicity of multiplication by a non-negative factor. */
  lemma MulLeq(a: int, b: int, k: int)
    requires a <= b && 0 <= k
    ensures a * k <= b * k
  {
    assert b * k - a * k == (b - a) * k;
  }

  /** Row-major cells `y * width + x` of a `width × height` grid stay below `width * height`. */
  lemma CellBelowArea(x: int, y: int, width: int, height: int)
    requires 0 <= x < width && 0 <= y < height
    ensures 0 <= y * width + x < width * height
  {
    MulLeq(y + 1, height, width);
    assert (y + 1) * width == y * width + width;
    assert height * width == width * height;
    MulLeq(0, y, width);
  }

  /** Truncating division by a positive count keeps a bound that holds on average. */
  lemma DivAtMost(a: int, c: int, b: int)
    requires 0 <= a && 0 < c && 0 <= b
    requires a <= c * b
    ensures 0 <= a / c <= b
  {
    var q := a / c;
    assert q * c <= a;
    if q > b {
      MulLeq(b + 1, q, c);
    }
    if q < 0 {
      MulLeq(q, -1, c);
    }
  }

  /** The row and column of a row-major cell are recovered by division and remainder. */
  lemma RowColumn(x: int, y: int, width: int)
    requires 0 <= x < width && 0 <= y
    ensures (y * width + x) / width == y && (y * width + x) % width == x
  {
    var p := y * width + x;
    var q, r := p / width, p % width;
    assert p == q * width + r && 0 <= r < width;
    if q > y {
      MulLeq(y + 1, q, width);
    }
    if q < y {
      MulLeq(q + 1, y, width);
    }
  }
}
