/** The viewer loop: a bottom-up BGR image drawn on a BGRA screen. */
module Viewer {
  import opened Bytes

  ghost predicate DataHolds(data: seq<byte>, cols: int, rows: int) {
    cols > 0 && rows > 0 ==> 3 * (rows * cols) <= |data|
  }

  /** The screen memory holds the last row; a row wider than the screen runs into the next. */
  ghost predicate ImageFits(cols: int, rows: int, xres: nat, size: nat) {
    cols > 0 && rows > 0 ==> 4 * ((rows - 1) * xres + cols) <= size
  }

  lemma DataSlotFits(data: seq<byte>, cols: int, rows: int, x: int, y: int)
    requires DataHolds(data, cols, rows) && 0 <= x < cols && 0 <= y < rows
    ensures 0 <= 3 * ((rows - 1 - y) * cols + x) && 3 * ((rows - 1 - y) * cols + x) + 2 < |data|
  {
    RowsBelow(rows - 1 - y, rows - 1, cols);
    assert (rows - 1) * cols + cols == rows * cols;
  }

  lemma ScreenSlotFits(cols: int, rows: int, xres: nat, size: nat, x: int, y: int)
    requires ImageFits(cols, rows, xres, size) && 0 <= x < cols && 0 <= y < rows
    ensures 0 <= 4 * (y * xres + x) && 4 * (y * xres + x) + 3 < size
  {
    RowsBelow(y, rows - 1, xres);
  }

  /** Channel k of the colour shown at (x, y). */
  ghost function Shown(data: seq<byte>, cols: int, rows: int, x: int, y: int, k: int): byte
    requires DataHolds(data, cols, rows) && 0 <= x < cols && 0 <= y < rows && 0 <= k < 4
  {
    DataSlotFits(data, cols, rows, x, y);
    if k == 3 then 255 else data[3 * ((rows - 1 - y) * cols + x) + k]
  }

  // ----- which row is the last to store a pixel

  /** The last of the first y rows that starts at or before pixel q. */
  function LastRow(xres: nat, y: nat, q: nat): (row: int)
    ensures y > 0 ==> 0 <= row < y
  {
    if xres > 0 then Min(y - 1, q / xres) else y - 1
  }

  /** The row of the image that pixel q shows when the first y rows and x columns of row y are drawn; -1 is none. */
  function ShownRow(cols: int, xres: nat, y: nat, x: int, q: nat): int {
    if y * xres <= q < y * xres + x then y
    else if y > 0 && q < LastRow(xres, y, q) * xres + cols then LastRow(xres, y, q)
    else -1
  }

  lemma StartsBefore(xres: nat, y: int, q: nat)
    requires xres > 0
    ensures y * xres <= q <==> y <= q / xres
  {
    var d := q / xres;
    assert q == xres * d + q % xres;
    if y <= d {
      assert d * xres == y * xres + (d - y) * xres;
      assert (d - y) * xres >= 0;
    } else {
      MulAtLeast(y - d, xres);
      assert y * xres == d * xres + (y - d) * xres;
    }
  }

  lemma LastRowStarts(xres: nat, y: nat, q: nat)
    requires y > 0
    ensures LastRow(xres, y, q) * xres <= q
  {
    if xres > 0 {
      StartsBefore(xres, LastRow(xres, y, q), q);
    } else {
      assert LastRow(xres, y, q) * 0 == 0;
    }
  }

  /** A row found that way is a row of the image, and the pixel is one of its columns. */
  lemma ShownRowColumn(cols: int, xres: nat, y: nat, x: int, q: nat)
    requires 0 <= x <= cols
    ensures var row := ShownRow(cols, xres, y, x, q);
      row >= 0 ==> (row < y || (row == y && x > 0)) && 0 <= q - row * xres < cols
  {
    if y > 0 {
      LastRowStarts(xres, y, q);
    }
  }

  ghost function ViewUpTo(m: seq<byte>, data: seq<byte>, cols: int, rows: int, xres: nat, y: nat, x: int): seq<byte>
    requires DataHolds(data, cols, rows) && 0 <= x <= Max(cols, 0) && y <= Max(rows, 0) && (y >= rows ==> x == 0)
  {
    seq(|m|, i requires 0 <= i < |m| => ViewByte(m, data, cols, rows, xres, y, x, i))
  }

  ghost function ViewByte(m: seq<byte>, data: seq<byte>, cols: int, rows: int, xres: nat, y: nat, x: int, i: nat): byte
    requires DataHolds(data, cols, rows) && 0 <= x <= Max(cols, 0) && y <= Max(rows, 0) && (y >= rows ==> x == 0)
    requires i < |m|
  {
    var row := ShownRow(cols, xres, y, x, i / 4);
    if cols > 0 && row >= 0 then
      ShownRowColumn(cols, xres, y, x, i / 4);
      Shown(data, cols, rows, i / 4 - row * xres, row, i % 4)
    else m[i]
  }

  /** The screen after the loops: every pixel shows the last image row drawn over it, everything else is as it was. */
  ghost function ViewAfter(m: seq<byte>, data: seq<byte>, cols: int, rows: int, xres: nat): seq<byte>
    requires DataHolds(data, cols, rows)
  {
    ViewUpTo(m, data, cols, rows, xres, Max(rows, 0), 0)
  }

  lemma ViewStep(m: seq<byte>, data: seq<byte>, cols: int, rows: int, xres: nat, y: int, x: int)
    requires DataHolds(data, cols, rows) && ImageFits(cols, rows, xres, |m|)
    requires 0 <= y < rows && 0 <= x < cols
    ensures var at, s := 4 * (y * xres + x), ViewUpTo(m, data, cols, rows, xres, y, x);
      && 0 <= at && at + 3 < |m|
      && ViewUpTo(m, data, cols, rows, xres, y, x + 1) ==
        s[at := Shown(data, cols, rows, x, y, 0)][at + 1 := Shown(data, cols, rows, x, y, 1)]
         [at + 2 := Shown(data, cols, rows, x, y, 2)][at + 3 := 255]
  {
    ScreenSlotFits(cols, rows, xres, |m|, x, y);
    var q := y * xres + x;
    forall i | 0 <= i < |m|
      ensures ShownRow(cols, xres, y, x + 1, i / 4) == if i / 4 == q then y else ShownRow(cols, xres, y, x, i / 4)
    {
    }
  }

  /** A finished row is the start of the next. */
  lemma RowDone(cols: int, xres: nat, y: nat, q: nat)
    requires cols >= 0
    ensures ShownRow(cols, xres, y, cols, q) == ShownRow(cols, xres, y + 1, 0, q)
  {
    if xres > 0 {
      StartsBefore(xres, y, q);
    }
    assert (y + 1) * xres == y * xres + xres;
    if y > 0 {
      assert (y - 1) * xres == y * xres - xres;
    }
  }

  lemma ViewRowDone(m: seq<byte>, data: seq<byte>, cols: int, rows: int, xres: nat, y: int)
    requires DataHolds(data, cols, rows) && 0 <= y < rows
    ensures ViewUpTo(m, data, cols, rows, xres, y, Max(cols, 0)) == ViewUpTo(m, data, cols, rows, xres, y + 1, 0)
  {
    if cols > 0 {
      forall i | 0 <= i < |m|
        ensures ShownRow(cols, xres, y, cols, i / 4) == ShownRow(cols, xres, y + 1, 0, i / 4)
      {
        RowDone(cols, xres, y, i / 4);
      }
    }
  }

  /** One pixel: three limited channels and the alpha byte, stored at x and the row base. */
  method ShowPixel(data: array<byte>, bmp: array<byte>, k: int, total: nat, x: nat)
    requires 0 <= k + 3 * x && k + 3 * x + 2 < data.Length && 4 * x + total + 3 < bmp.Length && data != bmp
    modifies bmp
    ensures var at, from := 4 * x + total, k + 3 * x;
      bmp[..] == old(bmp[..])[at := data[from]][at + 1 := data[from + 1]][at + 2 := data[from + 2]][at + 3 := 255]
  {
    var b := LimitByte(data[k + x * 24 / 8 + 0]);
    var g := LimitByte(data[k + x * 24 / 8 + 1]);
    var r := LimitByte(data[k + x * 24 / 8 + 2]);
    bmp[x * 32 / 8 + total + 0] := b;
    bmp[x * 32 / 8 + total + 1] := g;
    bmp[x * 32 / 8 + total + 2] := r;
    bmp[x * 32 / 8 + total + 3] := 255;
  }

  method ViewRow(data: array<byte>, cols: int, rows: int, xres: nat, bmp: array<byte>, y: nat, k: int, total: nat,
                 ghost d: seq<byte>, ghost m: seq<byte>)
    requires data != bmp && data[..] == d && |m| == bmp.Length
    requires DataHolds(d, cols, rows) && ImageFits(cols, rows, xres, |m|) && y < rows
    requires k == 3 * ((rows - 1 - y) * cols) && total == 4 * (y * xres)
    requires bmp[..] == ViewUpTo(m, d, cols, rows, xres, y, 0)
    modifies bmp
    ensures bmp[..] == ViewUpTo(m, d, cols, rows, xres, y + 1, 0)
  {
    var x := 0;
    while x < cols
      invariant 0 <= x <= Max(cols, 0) && data[..] == d
      invariant bmp[..] == ViewUpTo(m, d, cols, rows, xres, y, x)
    {
      ViewStep(m, d, cols, rows, xres, y, x);
      DataSlotFits(d, cols, rows, x, y);
      ShowPixel(data, bmp, k, total, x);
      x := x + 1;
    }
    ViewRowDone(m, d, cols, rows, xres, y);
  }

  /** The loops of the viewer. */
  method ViewRows(data: array<byte>, cols: int, rows: int, xres: nat, bmp: array<byte>)
    requires data != bmp && DataHolds(data[..], cols, rows) && ImageFits(cols, rows, xres, bmp.Length)
    modifies bmp
    ensures bmp[..] == ViewAfter(old(bmp[..]), data[..], cols, rows, xres)
  {
    ghost var d, m := data[..], bmp[..];
    var y := 0;
    while y < rows
      invariant 0 <= y <= Max(rows, 0) && data[..] == d
      invariant bmp[..] == ViewUpTo(m, d, cols, rows, xres, y, 0)
    {
      var below, above := (rows - y - 1) * cols, y * xres;
      ViewRow(data, cols, rows, xres, bmp, y, below * 24 / 8, above * 32 / 8, d, m);
      y := y + 1;
    }
  }

  method CopyBytes(to: array<byte>, from: array<byte>)
    requires to != from && to.Length == from.Length
    modifies to
    ensures to[..] == from[..]
  {
    forall i | 0 <= i < to.Length {
      to[i] := from[i];
    }
  }

  /** The loops of the viewer, then the copy of its buffer to the screen. */
  method ViewBmp(data: array<byte>, cols: int, rows: int, xres: nat, bmp: array<byte>, fb: array<byte>)
    requires data != bmp && data != fb && bmp != fb && fb.Length == bmp.Length
    requires DataHolds(data[..], cols, rows) && ImageFits(cols, rows, xres, bmp.Length)
    modifies bmp, fb
    ensures fb[..] == bmp[..] == ViewAfter(old(bmp[..]), data[..], cols, rows, xres)
  {
    ViewRows(data, cols, rows, xres, bmp);
    CopyBytes(fb, bmp);
  }

  /** Pixel (x, y) of the image is on the screen, at its own position, unless a later row was drawn over it. */
  lemma ViewHolds(m: seq<byte>, data: seq<byte>, cols: int, rows: int, xres: nat, x: int, y: int, k: int)
    requires DataHolds(data, cols, rows) && ImageFits(cols, rows, xres, |m|)
    requires 0 <= x < cols && 0 <= y < rows && 0 <= k < 4 && (x < xres || y == rows - 1)
    ensures var at, from := 4 * (y * xres + x) + k, 3 * ((rows - 1 - y) * cols + x) + k;
      && 0 <= at < |m| && (k < 3 ==> 0 <= from < |data|)
      && ViewAfter(m, data, cols, rows, xres)[at] == Shown(data, cols, rows, x, y, k)
      && ViewAfter(m, data, cols, rows, xres)[at] == if k < 3 then data[from] else 255
  {
    ScreenSlotFits(cols, rows, xres, |m|, x, y);
    DataSlotFits(data, cols, rows, x, y);
    var at, q := 4 * (y * xres + x) + k, y * xres + x;
    assert at / 4 == q && at % 4 == k;
    OwnRow(cols, rows, xres, x, y);
  }

  lemma OwnRow(cols: int, rows: int, xres: nat, x: int, y: int)
    requires 0 <= x < cols && 0 <= y < rows && (x < xres || y == rows - 1)
    ensures y * xres >= 0 && ShownRow(cols, xres, rows, 0, y * xres + x) == y
  {
    var q := y * xres + x;
    RowsBelow(y, rows, xres);
    if xres > 0 {
      StartsBefore(xres, y, q);
      if y < rows - 1 {
        RowMajor(y, xres, x);
      }
    }
  }

  /** A pixel of a wide image that reaches past the screen is drawn over by a later row. */
  lemma DrawnOver(cols: int, rows: int, xres: nat, x: int, y: int)
    requires xres <= x < cols && 0 <= y < rows - 1
    ensures y * xres >= 0 && ShownRow(cols, xres, rows, 0, y * xres + x) > y
  {
    var q := y * xres + x;
    RowsBelow(y, rows, xres);
    assert (y + 1) * xres == y * xres + xres;
    if xres > 0 {
      StartsBefore(xres, y + 1, q);
      var last := LastRow(xres, rows, q);
      RowsBelow(y + 1, last, xres);
      assert last * xres >= (y + 1) * xres;
    }
  }

  /** What is shown in its place is the pixel of that later row. */
  lemma OtherShown(m: seq<byte>, data: seq<byte>, cols: int, rows: int, xres: nat, x: int, y: int, k: int)
    returns (x': int, y': int)
    requires DataHolds(data, cols, rows) && ImageFits(cols, rows, xres, |m|)
    requires xres <= x < cols && 0 <= y < rows - 1 && 0 <= k < 4
    ensures y < y' < rows && 0 <= x' < cols
    ensures var at := 4 * (y * xres + x) + k;
      0 <= at < |m| && ViewAfter(m, data, cols, rows, xres)[at] == Shown(data, cols, rows, x', y', k)
  {
    ScreenSlotFits(cols, rows, xres, |m|, x, y);
    DrawnOver(cols, rows, xres, x, y);
    var at, q := 4 * (y * xres + x) + k, y * xres + x;
    assert at / 4 == q && at % 4 == k;
    ShownRowColumn(cols, xres, rows, 0, q);
    y' := ShownRow(cols, xres, rows, 0, q);
    x' := q - y' * xres;
  }

  /** Pixel (x, y) of the image is on the screen, at its own position. */
  ghost predicate InPlace(m: seq<byte>, data: seq<byte>, cols: int, rows: int, xres: nat, x: int, y: int, k: int)
    requires DataHolds(data, cols, rows) && 0 <= x < cols && 0 <= y < rows && 0 <= k < 4
  {
    var at := 4 * (y * xres + x) + k;
    0 <= at < |m| && ViewAfter(m, data, cols, rows, xres)[at] == Shown(data, cols, rows, x, y, k)
  }

  /** That is so for every image of the size and every screen. */
  ghost predicate Stays(cols: int, rows: int, xres: nat, x: int, y: int)
    requires 0 <= x < cols && 0 <= y < rows
  {
    forall m, data, k | DataHolds(data, cols, rows) && ImageFits(cols, rows, xres, |m|) && 0 <= k < 4 ::
      InPlace(m, data, cols, rows, xres, x, y, k)
  }

  /** All bytes 0 but one. */
  function OneByte(size: nat, at: int): (s: seq<byte>)
    ensures |s| == size && forall i :: 0 <= i < size ==> s[i] == if i == at then 1 else 0
  {
    seq(size, i => if i == at then 1 else 0)
  }

  lemma NotInPlace(m: seq<byte>, cols: int, rows: int, xres: nat, x: int, y: int)
    requires ImageFits(cols, rows, xres, |m|) && xres <= x < cols && 0 <= y < rows - 1
    ensures rows * cols >= 0
    ensures var data := OneByte(3 * (rows * cols), 3 * ((rows - 1 - y) * cols + x));
      !InPlace(m, data, cols, rows, xres, x, y, 0)
  {
    RowsBelow(rows, rows, cols);
    var data := OneByte(3 * (rows * cols), 3 * ((rows - 1 - y) * cols + x));
    DataSlotFits(data, cols, rows, x, y);
    var x', y' := OtherShown(m, data, cols, rows, xres, x, y, 0);
    DataSlotFits(data, cols, rows, x', y');
    RowMajor(rows - 1 - y, cols, x);
    RowMajor(rows - 1 - y', cols, x');
  }

  /** Exactly which pixels stay on the screen: those within its width, and the whole last row. */
  lemma StaysIff(cols: int, rows: int, xres: nat, x: int, y: int)
    requires 0 <= x < cols && 0 <= y < rows
    ensures Stays(cols, rows, xres, x, y) <==> x < xres || y == rows - 1
  {
    if x < xres || y == rows - 1 {
      forall m, data, k | DataHolds(data, cols, rows) && ImageFits(cols, rows, xres, |m|) && 0 <= k < 4
        ensures InPlace(m, data, cols, rows, xres, x, y, k)
      {
        ViewHolds(m, data, cols, rows, xres, x, y, k);
      }
    } else {
      RowsBelow(rows - 1, rows - 1, xres);
      var m: seq<byte> := seq(4 * ((rows - 1) * xres + cols), _ => 0);
      NotInPlace(m, cols, rows, xres, x, y);
    }
  }

  /** For an image no wider than the screen, everything outside it keeps its value. */
  lemma ViewKeeps(m: seq<byte>, data: seq<byte>, cols: int, rows: int, xres: nat, i: nat)
    requires DataHolds(data, cols, rows) && i < |m| && 0 < cols <= xres
    requires i / 4 % xres >= cols || i / 4 / xres >= rows
    ensures ViewAfter(m, data, cols, rows, xres)[i] == m[i]
  {
    var q, d := i / 4, i / 4 / xres;
    assert q == xres * d + q % xres;
    if rows > 0 && d >= rows {
      RowsBelow(rows, d, xres);
      assert (rows - 1) * xres == rows * xres - xres;
    }
  }
}
