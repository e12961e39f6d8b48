/** Integer facts shared by the packed grid and the pixel buffers: Euclidean
    division by a positive divisor, and the bounds of row-major offsets. */
module Arith {

  function Abs(a: int): (r: int)
    ensures r >= 0 && (r == a || r == -a)
  {
    if a < 0 then -a else a
  }

  function Min(a: int, b: int): (r: int)
    ensures r <= a && r <= b && (r == a || r == b)
  {
    if a < b then a else b
  }

  function Max(a: int, b: int): (r: int)
    ensures r >= a && r >= b && (r == a || r == b)
  {
    if a > b then a else b
  }

  /** A quotient and remainder pair is unique: `a == q * d + r` with
      `0 <= r < d` pins down `a / d` and `a % d`. */
  lemma DivModUnique(a: int, d: int, q: int, r: int)
    requires d > 0 && 0 <= r < d && a == q * d + r
    ensures a / d == q && a % d == r
  {
    var q', r' := a / d, a % d;
    assert a == q' * d + r';
    if q' < q {
      assert (q - q') * d == q * d - q' * d;
      MulAtLeast(q - q', d);
    } else if q < q' {
      assert (q' - q) * d == q' * d - q * d;
      MulAtLeast(q' - q, d);
    }
  }

  lemma MulAtLeast(k: int, d: int)
    requires k >= 1 && d >= 0
    ensures k * d >= d
  {
    assert k * d == (k - 1) * d + d;
    MulNonNegative(k - 1, d);
  }

  lemma MulNonNegative(a: int, b: int)
    requires a >= 0 && b >= 0
    ensures a * b >= 0
  {
  }

  /** The offset `row * stride + col` of an in-range cell lies inside a
      `rows * stride` block. */
  lemma OffsetInBlock(row: int, col: int, rows: int, stride: int)
    requires 0 <= row < rows && 0 <= col < stride
    ensures 0 <= row * stride + col < rows * stride
  {
    MulNonNegative(row, stride);
    assert rows * stride == (rows - 1 - row) * stride + row * stride + stride;
    MulNonNegative(rows - 1 - row, stride);
  }

  /** Two in-range offsets are equal only for the same row and column. */
  lemma OffsetInjective(row1: int, col1: int, row2: int, col2: int, stride: int)
    requires 0 <= col1 < stride && 0 <= col2 < stride
    requires row1 * stride + col1 == row2 * stride + col2
    ensures row1 == row2 && col1 == col2
  {
    DivModUnique(row1 * stride + col1, stride, row1, col1);
    DivModUnique(row2 * stride + col2, stride, row2, col2);
  }

  /** Every offset inside a `rows * stride` block splits into a row below
      `rows` and a column below `stride`. */
  lemma OffsetSplit(i: int, rows: int, stride: int)
    requires stride > 0 && 0 <= i < rows * stride
    ensures 0 <= i / stride < rows && 0 <= i % stride < stride
    ensures i == (i / stride) * stride + i % stride
  {
  }
}
