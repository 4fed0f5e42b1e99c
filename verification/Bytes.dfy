/** Bytes, colours, and the arithmetic of row-major addresses. */
module Bytes {
  type byte = x: int | 0 <= x < 256

  /** Unsigned 32-bit arithmetic is modulo this. */
  const WORD: int := 0x1_0000_0000

  datatype Colour = Colour(b: byte, g: byte, r: byte) {
    /** The byte stored for channel k of a screen pixel: B, G, R and full opacity. */
    function Channel(k: int): byte {
      if k == 0 then b else if k == 1 then g else if k == 2 then r else 0xFF
    }
  }

  function Min(a: int, b: int): int {
    if a < b then a else b
  }

  function Max(a: int, b: int): int {
    if a < b then b else a
  }

  function Abs(a: int): nat {
    if a < 0 then -a else a
  }

  /** The macro LIMIT_UBYTE: on a value that is already a byte it changes nothing. */
  function LimitByte(n: int): int {
    if n > 255 then 255 else if n < 0 then 0 else n
  }

  lemma MulAtLeast(k: int, d: int)
    requires k >= 1 && d >= 0
    ensures k * d >= d
  {
    assert (k - 1) * d >= 0;
  }

  /** Row number times pitch grows with the row. */
  lemma RowsBelow(row: int, rows: int, pitch: int)
    requires 0 <= row <= rows && pitch >= 0
    ensures 0 <= row * pitch <= rows * pitch
  {
    assert rows * pitch == row * pitch + (rows - row) * pitch;
    assert row * pitch >= 0 && (rows - row) * pitch >= 0;
  }

  /** Quotient and remainder of a row-major address are its row and its column. */
  lemma RowMajor(row: int, pitch: int, column: int)
    requires 0 <= column < pitch
    ensures (row * pitch + column) / pitch == row
    ensures (row * pitch + column) % pitch == column
  {
    var n := row * pitch + column;
    var q, m := n / pitch, n % pitch;
    assert n == pitch * q + m;
    assert (q - row) * pitch == column - m;
    assert (row - q) * pitch == m - column;
    if q > row {
      MulAtLeast(q - row, pitch);
    } else if q < row {
      MulAtLeast(row - q, pitch);
    }
  }

  /** Row and column determine the number, and the number them. */
  lemma SameSlot(n: int, p: int, y: int, k: int)
    requires 0 <= k < p
    ensures n == y * p + k <==> n / p == y && n % p == k
  {
    RowMajor(y, p, k);
    assert n == p * (n / p) + n % p;
  }
}
