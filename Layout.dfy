/**
 * Flat row-major layout of a plane: sample `(row, col)` of a buffer whose
 * rows are `stride` samples apart sits at `row * stride + col`. The filter
 * uses it for the correction table (`j * w + i`, stride `w`) and for the
 * frame planes (`y * linesize + x`).
 */
module Layout {
  import opened FixedPoint

  function Idx(row: int, col: int, stride: int): int
  {
    row * stride + col
  }

  /** A sample inside a `rows x stride` grid lies inside the buffer. */
  lemma IdxBound(row: int, col: int, rows: int, stride: int)
    requires 0 <= row < rows && 0 <= col < stride
    ensures 0 <= Idx(row, col, stride) < rows * stride
  {
    MulNonnegative(row, stride);
    MulLe(row + 1, rows, stride);
  }

  /** A position inside a `rows x cols` grid lies inside a buffer of `rows` lines of any stride of at least `cols`. */
  lemma IdxBoundEveryStride(row: int, col: int, rows: int, cols: int)
    requires 0 <= row < rows && 0 <= col < cols
    ensures forall s :: cols <= s ==> 0 <= Idx(row, col, s) < rows * s
  {
    forall s | cols <= s
      ensures 0 <= Idx(row, col, s) < rows * s
    {
      IdxBound(row, col, rows, s);
    }
  }

  /** Two grid positions share a buffer index only if they are the same position. */
  lemma IdxInjective(r1: int, c1: int, r2: int, c2: int, stride: int)
    requires 0 <= r1 && 0 <= r2 && 0 <= c1 < stride && 0 <= c2 < stride
    requires Idx(r1, c1, stride) == Idx(r2, c2, stride)
    ensures r1 == r2 && c1 == c2
  {
    if r1 < r2 {
      MulLe(r1 + 1, r2, stride);
    } else if r2 < r1 {
      MulLe(r2 + 1, r1, stride);
    }
  }

  /** Every buffer index is the index of exactly one grid position. */
  lemma IdxOf(k: int, stride: int)
    requires 0 <= k && 0 < stride
    ensures 0 <= k / stride && 0 <= k % stride < stride
    ensures Idx(k / stride, k % stride, stride) == k
  {
  }

  /** A grid position of a buffer of `rows * stride` samples has a row below `rows`. */
  lemma RowBelow(row: int, col: int, rows: int, stride: int)
    requires 0 <= row && 0 <= col < stride && 0 < stride
    requires Idx(row, col, stride) < rows * stride
    ensures row < rows
  {
    if row >= rows {
      MulLe(rows, row, stride);
    }
  }
}
