/** Integer facts behind row-major offsets `row * width + col` into flat
    buffers and behind strided loops (Euclidean division by a positive divisor). */
module FlatIndex {

  lemma MulMonotone(a: nat, b: nat, c: nat)
    requires a <= b
    ensures a * c <= b * c
  {
    assert b * c == a * c + (b - a) * c;
  }

  lemma MulAtLeast(d: int, m: int)
    requires d >= 1 && m >= 1
    ensures d * m >= m
  {
    assert d * m == (d - 1) * m + m;
  }

  lemma DivMod(a: int, m: int)
    requires m >= 1
    ensures a == (a / m) * m + a % m && 0 <= a % m < m
  {
  }

  /** The quotient and remainder of a division by m are the unique p and r,
      0 <= r < m, with a == p * m + r. */
  lemma DivModUnique(a: int, m: int, p: int, r: int)
    requires m >= 1 && 0 <= r < m && a == p * m + r
    ensures a / m == p && a % m == r
  {
    var q := a / m;
    DivMod(a, m);
    if q < p {
      assert p * m == q * m + (p - q) * m;
      MulAtLeast(p - q, m);
      assert false;
    } else if q > p {
      assert q * m == p * m + (q - p) * m;
      MulAtLeast(q - p, m);
      assert false;
    }
  }

  /** Adding the divisor adds one to the quotient and keeps the remainder. */
  lemma DivModShift(a: int, m: int)
    requires m >= 1
    ensures (a + m) / m == a / m + 1 && (a + m) % m == a % m
  {
    DivMod(a, m);
    assert a + m == (a / m + 1) * m + a % m;
    DivModUnique(a + m, m, a / m + 1, a % m);
  }

  lemma DivNonNegative(a: int, m: int)
    requires m >= 1 && a >= 0
    ensures a / m >= 0 && a % m <= a
  {
    DivMod(a, m);
    assert (a / m) * m >= 0;
  }

  /** A cell of a `height x width` grid has its offset inside the flat buffer. */
  lemma RowMajorBound(row: nat, col: nat, height: nat, width: nat)
    requires row < height && col < width
    ensures 0 <= row * width + col < height * width
  {
    MulMonotone(0, row, width);
    MulMonotone(row + 1, height, width);
  }

  /** `k / width` and `k % width` recover the row and column of a row-major offset. */
  lemma RowMajorDivMod(row: int, col: int, width: int)
    requires 0 <= col < width
    ensures (row * width + col) / width == row
    ensures (row * width + col) % width == col
  {
    DivModUnique(row * width + col, width, row, col);
  }
}
