/** One captured YUYV frame: conversion to BGRA on the screen and to a bottom-up BGR image. */
module Capture {
  import opened Bytes

  // ----- colour

  function Clip(value: int, min: int, max: int): int {
    if value > max then max else if value < min then min else value
  }

  /** Add half, shift right by 8 (the arithmetic shift is a floor), clip to a byte. */
  function Round(sum: int): byte {
    Clip((sum + 128) / 256, 0, 255)
  }

  function Convert(y: byte, u: byte, v: byte): Colour {
    var r := Round(298 * y + 409 * (v - 128));
    var g := Round(298 * y - 100 * (u - 128) - 208 * (v - 128));
    var b := Round(298 * y + 516 * (u - 128));
    Colour(b, g, r)
  }

  /** b is q limited to [0, 255] and rounded to nearest, halves upwards. */
  predicate Nearest(b: byte, q: real) {
    if q < 0.0 then b == 0 else if q > 255.0 then b == 255 else b as real - 0.5 <= q < b as real + 0.5
  }

  /** The shift of the sum plus one half rounds to nearest, negative sums included. */
  lemma RoundNearest(s: int)
    ensures Nearest(Round(s), s as real / 256.0)
  {
    var n := (s + 128) / 256;
    assert 256 * n <= s + 128 < 256 * n + 256;
    assert (256 * n - 128) as real <= s as real < (256 * n + 128) as real;
    assert n as real - 0.5 <= s as real / 256.0 < n as real + 0.5;
  }

  /**
   The three channels are the linear combinations of luma and chroma, limited and rounded to nearest,
   and no 32-bit sum overflows on the way.
   */
  lemma ConvertAccurate(y: byte, u: byte, v: byte)
    ensures Nearest(Convert(y, u, v).r, (298 * y + 409 * (v - 128)) as real / 256.0)
    ensures Nearest(Convert(y, u, v).g, (298 * y - 100 * (u - 128) - 208 * (v - 128)) as real / 256.0)
    ensures Nearest(Convert(y, u, v).b, (298 * y + 516 * (u - 128)) as real / 256.0)
    ensures -52352 <= 298 * y + 409 * (v - 128) <= 127933
    ensures -39116 <= 298 * y - 100 * (u - 128) - 208 * (v - 128) <= 115414
    ensures -66048 <= 298 * y + 516 * (u - 128) <= 141522
  {
    RoundNearest(298 * y + 409 * (v - 128));
    RoundNearest(298 * y - 100 * (u - 128) - 208 * (v - 128));
    RoundNearest(298 * y + 516 * (u - 128));
  }

  // ----- geometry

  /** Width and height of the camera image (the source fixes 800 and 600), and the width of the screen. */
  datatype Geometry = Geometry(width: nat, height: nat, xres: nat) {
    /** Pixels the cursor advances per screen row: the inner loop takes them two at a time. */
    function Pitch(): nat {
      2 * ((xres + 1) / 2)
    }

    /** Pixels of an image row that are converted. */
    function Columns(): nat {
      Min(width, Pitch())
    }

    predicate Valid() {
      width % 2 == 0
    }

    /** Row r, column x comes before row y, column k in the order of the loops. */
    predicate Before(r: int, x: int, y: int, k: int) {
      0 <= x < Columns() && 0 <= r && (r < y || (r == y && x < k))
    }
  }

  ghost predicate FrameFits(g: Geometry, frame: seq<byte>) {
    g.Valid() && |frame| >= 2 * (g.width * g.height)
  }

  lemma MacropixelFits(g: Geometry, frame: seq<byte>, x: int, y: int)
    requires FrameFits(g, frame) && 0 <= x < g.width && 0 <= y < g.height
    ensures 0 <= 2 * (y * g.width) && 2 * (y * g.width) + 4 * (x / 2) + 3 < |frame|
  {
    RowsBelow(y, g.height - 1, g.width);
    assert (g.height - 1) * g.width + g.width == g.width * g.height;
  }

  /** The colour of image pixel (x, y): its own luma, the chroma of the macropixel it shares. */
  ghost function Pixel(g: Geometry, frame: seq<byte>, x: int, y: int): Colour
    requires FrameFits(g, frame) && 0 <= x < g.width && 0 <= y < g.height
  {
    MacropixelFits(g, frame, x, y);
    var at := 2 * (y * g.width) + 4 * (x / 2);
    Convert(frame[at + 2 * (x % 2)], frame[at + 1], frame[at + 3])
  }

  // ----- the two destinations

  /** The screen after all pixels before row y, column k. */
  ghost function ScreenUpTo(g: Geometry, frame: seq<byte>, m: seq<byte>, y: int, k: int): seq<byte>
    requires FrameFits(g, frame) && y <= g.height && (y == g.height ==> k <= 0)
  {
    seq(|m|, i requires 0 <= i < |m| =>
      if g.Pitch() > 0 && g.Before(i / 4 / g.Pitch(), i / 4 % g.Pitch(), y, k)
      then Pixel(g, frame, i / 4 % g.Pitch(), i / 4 / g.Pitch()).Channel(i % 4)
      else m[i])
  }

  /** The image after all pixels before row y, column k: rows are stored bottom up. */
  ghost function ImageUpTo(g: Geometry, frame: seq<byte>, m: seq<byte>, y: int, k: int): seq<byte>
    requires FrameFits(g, frame) && y <= g.height && (y == g.height ==> k <= 0)
  {
    seq(|m|, i requires 0 <= i < |m| =>
      if g.width > 0 && g.Before(g.height - 1 - i / 3 / g.width, i / 3 % g.width, y, k)
      then Pixel(g, frame, i / 3 % g.width, g.height - 1 - i / 3 / g.width).Channel(i % 3)
      else m[i])
  }

  ghost function ScreenAfter(g: Geometry, frame: seq<byte>, m: seq<byte>): seq<byte>
    requires FrameFits(g, frame)
  {
    ScreenUpTo(g, frame, m, g.height, 0)
  }

  ghost function ImageAfter(g: Geometry, frame: seq<byte>, m: seq<byte>): seq<byte>
    requires FrameFits(g, frame)
  {
    ImageUpTo(g, frame, m, g.height, 0)
  }

  /** The screen memory holds every pixel the loops reach. */
  ghost predicate ScreenFits(g: Geometry, size: nat) {
    g.height > 0 ==> 4 * ((g.height - 1) * g.Pitch() + g.Columns()) <= size
  }

  lemma ScreenSlotFits(g: Geometry, size: nat, y: int, k: int)
    requires ScreenFits(g, size) && 0 <= y < g.height && 0 <= k < g.Columns()
    ensures 0 <= 4 * (y * g.Pitch() + k) && 4 * (y * g.Pitch() + k) + 3 < size
  {
    RowsBelow(y, g.height - 1, g.Pitch());
  }

  lemma ImageSlotFits(g: Geometry, y: int, k: int)
    requires 0 <= y < g.height && 0 <= k < g.width
    ensures 0 <= 3 * ((g.height - 1 - y) * g.width + k)
    ensures 3 * ((g.height - 1 - y) * g.width + k) + 2 < 3 * (g.width * g.height)
  {
    RowsBelow(g.height - 1 - y, g.height - 1, g.width);
    assert (g.height - 1) * g.width + g.width == g.width * g.height;
  }

  lemma BeforeStep(g: Geometry, r: int, x: int, y: int, k: int)
    requires 0 <= y && 0 <= k < g.Columns()
    ensures g.Before(r, x, y, k + 1) <==> g.Before(r, x, y, k) || (r == y && x == k)
  {
  }

  lemma ScreenStep(g: Geometry, frame: seq<byte>, m: seq<byte>, y: int, k: int)
    requires FrameFits(g, frame) && ScreenFits(g, |m|)
    requires 0 <= y < g.height && 0 <= k < g.Columns()
    ensures var at, c, s := 4 * (y * g.Pitch() + k), Pixel(g, frame, k, y), ScreenUpTo(g, frame, m, y, k);
      && 0 <= at && at + 3 < |m|
      && ScreenUpTo(g, frame, m, y, k + 1) == s[at := c.b][at + 1 := c.g][at + 2 := c.r][at + 3 := 0xFF]
  {
    ScreenSlotFits(g, |m|, y, k);
    var p, q := g.Pitch(), y * g.Pitch() + k;
    RowMajor(y, p, k);
    assert 4 * q / 4 == q && (4 * q + 1) / 4 == q && (4 * q + 2) / 4 == q && (4 * q + 3) / 4 == q;
    forall i | 0 <= i < |m|
      ensures g.Before(i / 4 / p, i / 4 % p, y, k + 1) <==> g.Before(i / 4 / p, i / 4 % p, y, k) || i / 4 == q
    {
      SameSlot(i / 4, p, y, k);
      BeforeStep(g, i / 4 / p, i / 4 % p, y, k);
    }
  }

  lemma ImageByteStep(g: Geometry, frame: seq<byte>, m: seq<byte>, y: int, k: int, i: nat)
    requires FrameFits(g, frame) && i < |m|
    requires 0 <= y < g.height && 0 <= k < g.Columns()
    ensures ImageUpTo(g, frame, m, y, k + 1)[i] ==
      if i / 3 == (g.height - 1 - y) * g.width + k then Pixel(g, frame, k, y).Channel(i % 3)
      else ImageUpTo(g, frame, m, y, k)[i]
  {
    var w, h := g.width, g.height;
    SameSlot(i / 3, w, h - 1 - y, k);
    BeforeStep(g, h - 1 - i / 3 / w, i / 3 % w, y, k);
  }

  lemma ImageStep(g: Geometry, frame: seq<byte>, m: seq<byte>, y: int, k: int)
    requires FrameFits(g, frame) && |m| == 3 * (g.width * g.height)
    requires 0 <= y < g.height && 0 <= k < g.Columns()
    ensures var at, c, s := 3 * ((g.height - 1 - y) * g.width + k), Pixel(g, frame, k, y), ImageUpTo(g, frame, m, y, k);
      && 0 <= at && at + 2 < |m|
      && ImageUpTo(g, frame, m, y, k + 1) == s[at := c.b][at + 1 := c.g][at + 2 := c.r]
  {
    ImageSlotFits(g, y, k);
    var q, c, s := (g.height - 1 - y) * g.width + k, Pixel(g, frame, k, y), ImageUpTo(g, frame, m, y, k);
    var t := ImageUpTo(g, frame, m, y, k + 1);
    forall i | 0 <= i < |m| ensures t[i] == if i / 3 == q then c.Channel(i % 3) else s[i] {
      ImageByteStep(g, frame, m, y, k, i);
    }
    Stores3(s, t, q, c);
  }

  lemma Stores3(s: seq<byte>, t: seq<byte>, q: nat, c: Colour)
    requires |s| == |t| && 3 * q + 2 < |s|
    requires forall i :: 0 <= i < |s| ==> t[i] == if i / 3 == q then c.Channel(i % 3) else s[i]
    ensures t == s[3 * q := c.b][3 * q + 1 := c.g][3 * q + 2 := c.r]
  {
  }

  /** Past the image nothing is stored, and a finished row is the start of the next. */
  lemma Skip(g: Geometry, frame: seq<byte>, s: seq<byte>, m: seq<byte>, y: int, k: int)
    requires FrameFits(g, frame) && 0 <= y < g.height && k >= g.Columns()
    ensures ScreenUpTo(g, frame, s, y, k) == ScreenUpTo(g, frame, s, y + 1, 0)
    ensures ImageUpTo(g, frame, m, y, k) == ImageUpTo(g, frame, m, y + 1, 0)
  {
    forall r, x ensures g.Before(r, x, y, k) <==> g.Before(r, x, y + 1, 0) {
    }
  }

  // ----- the conversion loops

  /** Four stores through the screen cursor. */
  method StoreBgra(fbp: array<byte>, location: nat, c: Colour) returns (next: nat)
    requires location + 3 < fbp.Length
    modifies fbp
    ensures fbp[..] == old(fbp[..])[location := c.b][location + 1 := c.g][location + 2 := c.r][location + 3 := 0xFF]
    ensures next == location + 4
  {
    fbp[location], next := c.b, location + 1;
    fbp[next], next := c.g, next + 1;
    fbp[next], next := c.r, next + 1;
    fbp[next], next := 0xFF, next + 1;
  }

  /** The numbers from from on, n of them. */
  ghost function Consecutive(from: int, n: nat): seq<int> {
    seq(n, k requires 0 <= k < n => from + k)
  }

  lemma ConsecutiveAppend(from: int, n: nat, k: nat)
    ensures Consecutive(from, n) + Consecutive(from + n, k) == Consecutive(from, n + k)
  {
  }

  /** Three stores through the row base and the running count of the image; written lists their indices. */
  method StoreBgr(inimg: array<byte>, row: nat, count: nat, c: Colour) returns (next: nat, ghost written: seq<int>)
    requires row + count + 2 < inimg.Length
    modifies inimg
    ensures written == Consecutive(row + count, 3)
    ensures var at := row + count;
      inimg[..] == old(inimg[..])[at := c.b][at + 1 := c.g][at + 2 := c.r]
    ensures next == count + 3
  {
    inimg[row + count], next, written := c.b, count + 1, [row + count];
    inimg[row + next], next, written := c.g, next + 1, written + [row + next];
    inimg[row + next], next, written := c.r, next + 1, written + [row + next];
  }

  /** Where row y starts in the image: rows are stored bottom up. */
  function RowBase(g: Geometry, y: int): int {
    3 * ((g.height - 1 - y) * g.width)
  }

  /** One converted pixel, stored in both destinations at the running cursors. */
  method StorePixel(g: Geometry, ghost frame: seq<byte>, fbp: array<byte>, inimg: array<byte>, y: nat, ghost k: nat,
                    location: nat, count: nat, c: Colour, ghost start: nat, ghost s0: seq<byte>, ghost m0: seq<byte>)
    returns (location': nat, count': nat, ghost written: seq<int>)
    requires FrameFits(g, frame) && ScreenFits(g, |s0|) && |m0| == 3 * (g.width * g.height)
    requires fbp != inimg && |s0| == fbp.Length && |m0| == inimg.Length
    requires y < g.height && k < g.Columns() && c == Pixel(g, frame, k, y)
    requires start == 4 * (y * g.Pitch()) && location == start + 4 * k && count == 3 * k
    requires fbp[..] == ScreenUpTo(g, frame, s0, y, k) && inimg[..] == ImageUpTo(g, frame, m0, y, k)
    modifies fbp, inimg
    ensures location' == location + 4 && count' == count + 3
    ensures written == Consecutive(RowBase(g, y) + count, 3)
    ensures fbp[..] == ScreenUpTo(g, frame, s0, y, k + 1) && inimg[..] == ImageUpTo(g, frame, m0, y, k + 1)
  {
    ScreenStep(g, frame, s0, y, k);
    ImageStep(g, frame, m0, y, k);
    var row := (g.height - y - 1) * g.width * 3;
    assert row == RowBase(g, y);
    RowsBelow(g.height - 1 - y, g.height, g.width);
    location' := StoreBgra(fbp, location, c);
    count', written := StoreBgr(inimg, row, count, c);
  }

  /** Pixel x is the left (side 0) or right (side 1) one of macropixel t of its row. */
  lemma PixelOf(g: Geometry, frame: seq<byte>, x: int, y: int, t: nat, side: int)
    requires FrameFits(g, frame) && 0 <= x < g.width && 0 <= y < g.height && x == 2 * t + side && 0 <= side < 2
    ensures var at := 2 * (y * g.width) + 4 * t;
      && 0 <= at && at + 3 < |frame|
      && Pixel(g, frame, x, y) == Convert(frame[at + 2 * side], frame[at + 1], frame[at + 3])
  {
    assert x / 2 == t && x % 2 == side;
    MacropixelFits(g, frame, x, y);
  }

  /** The two pixels of a macropixel share its chroma. */
  lemma PairPixels(g: Geometry, frame: seq<byte>, k: nat, y: nat)
    requires FrameFits(g, frame) && y < g.height && k % 2 == 0 && k + 1 < g.width
    ensures var at := 2 * (y * g.width) + 2 * k;
      && 0 <= at && at + 3 < |frame|
      && Pixel(g, frame, k, y) == Convert(frame[at], frame[at + 1], frame[at + 3])
      && Pixel(g, frame, k + 1, y) == Convert(frame[at + 2], frame[at + 1], frame[at + 3])
  {
    PixelOf(g, frame, k, y, k / 2, 0);
    PixelOf(g, frame, k + 1, y, k / 2, 1);
  }

  lemma SixConsecutive(row: int, count: int, mid: int, a: seq<int>, b: seq<int>)
    requires mid == count + 3 && a == Consecutive(row + count, 3) && b == Consecutive(row + mid, 3)
    ensures a + b == Consecutive(row + count, 6)
  {
    ConsecutiveAppend(row + count, 3, 3);
  }

  /** One macropixel: read Y0 U Y1 V, convert both pixels and store them. */
  method ConvertPair(g: Geometry, p: array<byte>, input: nat, j: nat, y: nat, fbp: array<byte>, inimg: array<byte>,
                     location: nat, count: nat, ghost start: nat, ghost k: nat,
                     ghost frame: seq<byte>, ghost s0: seq<byte>, ghost m0: seq<byte>)
    returns (location': nat, count': nat, ghost written: seq<int>)
    requires FrameFits(g, frame) && ScreenFits(g, |s0|) && |m0| == 3 * (g.width * g.height)
    requires p != fbp && p != inimg && fbp != inimg
    requires p[..] == frame && |s0| == fbp.Length && |m0| == inimg.Length
    requires y < g.height && j == 2 * k && k % 2 == 0 && k + 1 < g.Columns()
    requires input == 2 * (y * g.width) && start == 4 * (y * g.Pitch())
    requires location == start + 4 * k && count == 3 * k
    requires fbp[..] == ScreenUpTo(g, frame, s0, y, k) && inimg[..] == ImageUpTo(g, frame, m0, y, k)
    modifies fbp, inimg
    ensures location' == location + 8 && count' == count + 6
    ensures written == Consecutive(RowBase(g, y) + count, 6)
    ensures fbp[..] == ScreenUpTo(g, frame, s0, y, k + 2) && inimg[..] == ImageUpTo(g, frame, m0, y, k + 2)
  {
    PairPixels(g, frame, k, y);
    var y0, u, y1, v := p[input + j], p[input + j + 1], p[input + j + 2], p[input + j + 3];
    location', count', written :=
      StorePixel(g, frame, fbp, inimg, y, k, location, count, Convert(y0, u, v), start, s0, m0);
    ghost var mid, second := count', [];
    location', count', second :=
      StorePixel(g, frame, fbp, inimg, y, k + 1, location', count', Convert(y1, u, v), start, s0, m0);
    SixConsecutive(RowBase(g, y), count, mid, written, second);
    written := written + second;
  }

  /** Where the inner loop stands: j bytes into the row, the first so many columns converted. */
  predicate RowProgress(g: Geometry, j: int, k: int) {
    j % 4 == 0 && 0 <= j <= 2 * g.Pitch() && k == Min(j / 2, g.Columns())
  }

  lemma RowProgressStep(g: Geometry, j: int, k: int)
    requires g.Valid() && RowProgress(g, j, k) && j < g.xres * 2
    ensures j < g.width * 2 ==> j == 2 * k && k % 2 == 0 && k + 1 < g.Columns() && RowProgress(g, j + 4, k + 2)
    ensures j >= g.width * 2 ==> k == g.Columns() && RowProgress(g, j + 4, k)
  {
    var t, half, w := j / 4, (g.xres + 1) / 2, g.width / 2;
    assert j == 4 * t && g.Pitch() == 2 * half && g.width == 2 * w;
    assert t < half && j / 2 == 2 * t && (j + 4) / 2 == 2 * t + 2;
  }

  lemma RowProgressEnd(g: Geometry, j: int, k: int)
    requires RowProgress(g, j, k) && j >= g.xres * 2
    ensures j == 2 * g.Pitch() && k == g.Columns()
  {
  }

  /** The inner loop: one row of the screen, past the right edge of the image. */
  method ConvertRow(g: Geometry, p: array<byte>, input: nat, y: nat, fbp: array<byte>, inimg: array<byte>,
                    start: nat, ghost frame: seq<byte>, ghost s0: seq<byte>, ghost m0: seq<byte>)
    returns (location: nat, ghost written: seq<int>)
    requires FrameFits(g, frame) && ScreenFits(g, |s0|) && |m0| == 3 * (g.width * g.height)
    requires p != fbp && p != inimg && fbp != inimg
    requires p[..] == frame && |s0| == fbp.Length && |m0| == inimg.Length
    requires y < g.height && input == 2 * (y * g.width) && start == 4 * (y * g.Pitch())
    requires fbp[..] == ScreenUpTo(g, frame, s0, y, 0) && inimg[..] == ImageUpTo(g, frame, m0, y, 0)
    modifies fbp, inimg
    ensures location == start + 4 * g.Pitch()
    ensures written == Consecutive(RowBase(g, y), 3 * g.Columns())
    ensures fbp[..] == ScreenUpTo(g, frame, s0, y, g.Columns()) && inimg[..] == ImageUpTo(g, frame, m0, y, g.Columns())
  {
    location := start;
    var count, j := 0, 0;
    ghost var k := 0;
    written := [];
    while j < g.xres * 2
      invariant RowProgress(g, j, k) && p[..] == frame
      invariant written == Consecutive(RowBase(g, y), 3 * k)
      invariant location == start + 2 * j && count == 3 * k
      invariant fbp[..] == ScreenUpTo(g, frame, s0, y, k) && inimg[..] == ImageUpTo(g, frame, m0, y, k)
    {
      RowProgressStep(g, j, k);
      if j >= g.width * 2 {
        location := location + 8;
      } else {
        ghost var pair;
        location, count, pair := ConvertPair(g, p, input, j, y, fbp, inimg, location, count, start, k, frame, s0, m0);
        ConsecutiveAppend(RowBase(g, y), 3 * k, 6);
        written := written + pair;
        k := k + 2;
      }
      j := j + 4;
    }
    RowProgressEnd(g, j, k);
  }

  /** The image indices stored in the first y rows, in order. */
  ghost function WrittenRows(g: Geometry, y: nat): seq<int> {
    if y == 0 then [] else WrittenRows(g, y - 1) + Consecutive(RowBase(g, y - 1), 3 * g.Columns())
  }

  /** Rows move down in memory, so an index is not stored again. */
  lemma {:induction false} WrittenRowsDistinct(g: Geometry, y: nat)
    requires y <= g.height
    ensures forall a :: 0 <= a < |WrittenRows(g, y)| ==> RowBase(g, y - 1) <= WrittenRows(g, y)[a]
    ensures forall a, b :: 0 <= a < b < |WrittenRows(g, y)| ==> WrittenRows(g, y)[a] != WrittenRows(g, y)[b]
  {
    if y > 0 {
      WrittenRowsDistinct(g, y - 1);
      var before, row := WrittenRows(g, y - 1), Consecutive(RowBase(g, y - 1), 3 * g.Columns());
      NextRow(g.height - 1 - (y - 1), g.width);
      assert RowBase(g, y - 2) == RowBase(g, y - 1) + 3 * g.width;
      assert forall b :: 0 <= b < |row| ==> RowBase(g, y - 1) <= row[b] < RowBase(g, y - 2);
      assert forall a :: 0 <= a < |before| ==> RowBase(g, y - 2) <= before[a];
    }
  }

  /** The stored indices are those of the converted columns. */
  lemma {:induction false} WrittenRowsExact(g: Geometry, y: nat, i: int)
    requires y <= g.height && g.width > 0
    ensures i in WrittenRows(g, y) <==>
      i >= 0 && g.height - y <= i / 3 / g.width < g.height && i / 3 % g.width < g.Columns()
  {
    if y > 0 {
      WrittenRowsExact(g, y - 1, i);
      InRow(g, y - 1, i);
    } else {
      assert WrittenRows(g, y) == [];
    }
  }

  lemma InRow(g: Geometry, y: nat, i: int)
    requires y < g.height && g.width > 0
    ensures i in Consecutive(RowBase(g, y), 3 * g.Columns()) <==>
      i >= 0 && i / 3 / g.width == g.height - 1 - y && i / 3 % g.width < g.Columns()
  {
    var row, from, n := Consecutive(RowBase(g, y), 3 * g.Columns()), RowBase(g, y), 3 * g.Columns();
    var q, r := i / 3, g.height - 1 - y;
    RowsBelow(r, g.height, g.width);
    InConsecutive(from, n, i);
    if from <= i < from + n {
      var k := q - r * g.width;
      assert 0 <= k < g.Columns();
      SameSlot(q, g.width, r, k);
    }
    if i >= 0 && q / g.width == r && q % g.width < g.Columns() {
      SameSlot(q, g.width, r, q % g.width);
    }
  }

  lemma InConsecutive(from: int, n: nat, i: int)
    ensures i in Consecutive(from, n) <==> from <= i < from + n
  {
    if from <= i < from + n {
      assert Consecutive(from, n)[i - from] == i;
    }
  }

  /** No image byte is stored twice, and exactly the bytes of the converted columns are stored. */
  lemma WrittenOnce(g: Geometry)
    ensures var w := WrittenRows(g, g.height);
      && (forall a, b :: 0 <= a < b < |w| ==> w[a] != w[b])
      && forall i :: i in w <==> 0 <= i < 3 * (g.width * g.height) && i / 3 % g.width < g.Columns()
  {
    WrittenRowsDistinct(g, g.height);
    forall i ensures i in WrittenRows(g, g.height) <==>
      0 <= i < 3 * (g.width * g.height) && i / 3 % g.width < g.Columns()
    {
      if g.width > 0 {
        WrittenRowsExact(g, g.height, i);
        if 0 <= i < 3 * (g.width * g.height) {
          ImageByte(g, i);
        }
        if i >= 0 && i / 3 / g.width < g.height {
          InsideImage(g, i);
        }
      } else {
        NoRows(g, g.height);
      }
    }
  }

  lemma InsideImage(g: Geometry, i: nat)
    requires g.width > 0 && i / 3 / g.width < g.height
    ensures i < 3 * (g.width * g.height)
  {
    var q, w := i / 3, g.width;
    assert q == w * (q / w) + q % w;
    RowsBelow(q / w, g.height - 1, w);
    assert (g.height - 1) * w + w == w * g.height;
  }

  lemma {:induction false} NoRows(g: Geometry, y: nat)
    requires g.Columns() == 0
    ensures WrittenRows(g, y) == []
  {
    if y > 0 {
      NoRows(g, y - 1);
    }
  }

  /**
   The loops of processImage, for any frame, any even width, and any screen that holds what they store.
   written lists the image indices in the order in which they are stored: none twice, and, when the screen
   rows are long enough for the image rows, every one.
   */
  method ConvertFrame(g: Geometry, p: array<byte>, fbp: array<byte>, inimg: array<byte>)
    returns (ghost written: seq<int>)
    requires FrameFits(g, p[..]) && ScreenFits(g, fbp.Length) && inimg.Length == 3 * (g.width * g.height)
    requires p != fbp && p != inimg && fbp != inimg
    modifies fbp, inimg
    ensures fbp[..] == ScreenAfter(g, p[..], old(fbp[..]))
    ensures inimg[..] == ImageAfter(g, p[..], old(inimg[..]))
    ensures forall x, y, k | 0 <= x < g.width && x < g.xres + g.xres % 2 && 0 <= y < g.height && 0 <= k < 3 ::
      AccurateAt(g, p[..], fbp[..], inimg[..], x, y, k)
    ensures forall a, b :: 0 <= a < b < |written| ==> written[a] != written[b]
    ensures forall i :: i in written <==> 0 <= i < inimg.Length && i / 3 % g.width < g.Columns()
    ensures g.width <= g.Pitch() ==> forall i :: i in written <==> 0 <= i < inimg.Length
  {
    ghost var frame, s0, m0 := p[..], fbp[..], inimg[..];
    written := [];
    var location, input, y := 0, 0, 0;
    NothingYet(g, frame, s0, m0);
    while y < g.height
      invariant 0 <= y <= g.height && p[..] == frame
      invariant input == 2 * (y * g.width) && location == 4 * (y * g.Pitch())
      invariant written == WrittenRows(g, y)
      invariant fbp[..] == ScreenUpTo(g, frame, s0, y, 0) && inimg[..] == ImageUpTo(g, frame, m0, y, 0)
    {
      ghost var row;
      location, row := ConvertRow(g, p, input, y, fbp, inimg, location, frame, s0, m0);
      written := written + row;
      Skip(g, frame, s0, m0, y, g.Columns());
      NextRow(y, g.Pitch());
      NextRow(y, g.width);
      input := input + 2 * g.width;
      y := y + 1;
    }
    WrittenOnce(g);
    FrameAccurate(g, frame, s0, m0);
  }

  lemma NothingYet(g: Geometry, frame: seq<byte>, s: seq<byte>, m: seq<byte>)
    requires FrameFits(g, frame)
    ensures ScreenUpTo(g, frame, s, 0, 0) == s && ImageUpTo(g, frame, m, 0, 0) == m
  {
  }

  lemma NextRow(y: int, pitch: int)
    ensures (y + 1) * pitch == y * pitch + pitch
  {
  }

  // ----- what the two destinations hold

  /** Pixel (x, y) lands on the screen at byte 4 * (y * pitch + x). */
  lemma ScreenHolds(g: Geometry, frame: seq<byte>, m: seq<byte>, x: int, y: int, k: int)
    requires FrameFits(g, frame) && ScreenFits(g, |m|)
    requires 0 <= x < g.Columns() && 0 <= y < g.height && 0 <= k < 4
    ensures var at := 4 * (y * g.Pitch() + x) + k;
      0 <= at < |m| && ScreenAfter(g, frame, m)[at] == Pixel(g, frame, x, y).Channel(k)
  {
    ScreenSlotFits(g, |m|, y, x);
    RowMajor(y, g.Pitch(), x);
    var q := y * g.Pitch() + x;
    assert (4 * q + k) / 4 == q && (4 * q + k) % 4 == k;
  }

  /** Screen bytes to the right of the image and below it keep their value. */
  lemma ScreenKeeps(g: Geometry, frame: seq<byte>, m: seq<byte>, i: nat)
    requires FrameFits(g, frame) && i < |m|
    requires g.Pitch() == 0 || i / 4 % g.Pitch() >= g.width || i / 4 / g.Pitch() >= g.height
    ensures ScreenAfter(g, frame, m)[i] == m[i]
  {
  }

  lemma Thirds(q: int, k: int)
    requires 0 <= k < 3
    ensures (3 * q + k) / 3 == q && (3 * q + k) % 3 == k
  {
  }

  /** A byte of the image by the row and column it belongs to. */
  lemma ImageAt(g: Geometry, frame: seq<byte>, m: seq<byte>, x: int, y: int, i: nat)
    requires FrameFits(g, frame) && i < |m| && 0 <= x < g.width && 0 <= y < g.height
    requires i / 3 / g.width == g.height - 1 - y && i / 3 % g.width == x
    ensures ImageAfter(g, frame, m)[i] == if x < g.Columns() then Pixel(g, frame, x, y).Channel(i % 3) else m[i]
  {
  }

  /** The same pixel lands in the image at byte 3 * ((height - 1 - y) * width + x): the vertical flip. */
  lemma ImageHolds(g: Geometry, frame: seq<byte>, m: seq<byte>, x: int, y: int, k: int)
    requires FrameFits(g, frame) && |m| == 3 * (g.width * g.height)
    requires 0 <= x < g.Columns() && 0 <= y < g.height && 0 <= k < 3
    ensures var at := 3 * ((g.height - 1 - y) * g.width + x) + k;
      0 <= at < |m| && ImageAfter(g, frame, m)[at] == Pixel(g, frame, x, y).Channel(k)
  {
    ImageSlotFits(g, y, x);
    RowMajor(g.height - 1 - y, g.width, x);
    Thirds((g.height - 1 - y) * g.width + x, k);
    ImageAt(g, frame, m, x, y, 3 * ((g.height - 1 - y) * g.width + x) + k);
  }

  /** Image bytes of columns that are not converted keep their value. */
  lemma ImageKeeps(g: Geometry, frame: seq<byte>, m: seq<byte>, x: int, y: int, k: int)
    requires FrameFits(g, frame) && |m| == 3 * (g.width * g.height)
    requires g.Columns() <= x < g.width && 0 <= y < g.height && 0 <= k < 3
    ensures var at := 3 * ((g.height - 1 - y) * g.width + x) + k;
      0 <= at < |m| && ImageAfter(g, frame, m)[at] == m[at]
  {
    ImageSlotFits(g, y, x);
    RowMajor(g.height - 1 - y, g.width, x);
    Thirds((g.height - 1 - y) * g.width + x, k);
    ImageAt(g, frame, m, x, y, 3 * ((g.height - 1 - y) * g.width + x) + k);
  }

  /** Row and column of an image byte. */
  lemma ImageByte(g: Geometry, i: nat)
    requires i < 3 * (g.width * g.height)
    ensures g.width > 0 && 0 <= i / 3 / g.width < g.height && 0 <= i / 3 % g.width < g.width
  {
    var q, w := i / 3, g.width;
    assert w > 0 && g.height > 0;
    assert q == w * (q / w) + q % w;
    assert (q / w - g.height) * w < 0;
  }

  /**
   The image is complete, every byte assigned whatever the buffer held before,
   exactly when the screen rows are long enough for the image rows.
   */
  lemma ImageCompleteIff(g: Geometry, frame: seq<byte>)
    requires FrameFits(g, frame) && g.height > 0
    ensures (forall m, m' | |m| == |m'| == 3 * (g.width * g.height) ::
      ImageAfter(g, frame, m) == ImageAfter(g, frame, m'))
      <==> g.width <= g.Pitch()
  {
    var n := 3 * (g.width * g.height);
    if g.width <= g.Pitch() {
      forall m: seq<byte>, m': seq<byte> | |m| == |m'| == n
        ensures ImageAfter(g, frame, m) == ImageAfter(g, frame, m')
      {
        forall i | 0 <= i < n ensures ImageAfter(g, frame, m)[i] == ImageAfter(g, frame, m')[i] {
          ImageByte(g, i);
        }
      }
    } else {
      var x := g.Pitch();
      ImageSlotFits(g, g.height - 1, x);
      RowMajor(0, g.width, x);
      var i := 3 * x;
      var m: seq<byte> := seq(n, _ => 0);
      var m': seq<byte> := seq(n, _ => 1);
      assert ImageAfter(g, frame, m)[i] == 0 && ImageAfter(g, frame, m')[i] == 1;
    }
  }

  // ----- the position of the picture on the screen

  /** Channel k of pixel (x, y) is found at the position (x, y) of a screen that is xres wide. */
  ghost predicate AtOwnPosition(g: Geometry, frame: seq<byte>, m: seq<byte>, x: int, y: int, k: int)
    requires FrameFits(g, frame) && 0 <= x < g.width && 0 <= y < g.height
  {
    var at := 4 * (y * g.xres + x) + k;
    0 <= at < |m| && ScreenAfter(g, frame, m)[at] == Pixel(g, frame, x, y).Channel(k)
  }

  /** Every frame appears straight on every screen. */
  ghost predicate Straight(g: Geometry) {
    forall frame, m, x, y, k | FrameFits(g, frame) && ScreenFits(g, |m|) &&
      0 <= x < g.Columns() && 0 <= y < g.height && 0 <= k < 4 :: AtOwnPosition(g, frame, m, x, y, k)
  }

  /**
   The picture is straight if and only if the screen width is even (the inner loop advances two pixels
   at a time) or at most one row is drawn. Otherwise row y is shifted by y pixels.
   */
  lemma StraightIff(g: Geometry)
    requires g.Valid() && g.Columns() > 0
    ensures Straight(g) <==> g.xres % 2 == 0 || g.height <= 1
  {
    if g.xres % 2 == 0 || g.height <= 1 {
      forall frame, m, x, y, k | FrameFits(g, frame) && ScreenFits(g, |m|) &&
        0 <= x < g.Columns() && 0 <= y < g.height && 0 <= k < 4
        ensures AtOwnPosition(g, frame, m, x, y, k)
      {
        StraightAt(g, frame, m, x, y, k);
      }
    } else {
      RowsBelow(g.height - 1, g.height - 1, g.Pitch());
      var m: seq<byte> := seq(4 * ((g.height - 1) * g.Pitch() + g.Columns()), _ => 0);
      NotStraight(g, BluePixel(g), m);
    }
  }

  lemma StraightAt(g: Geometry, frame: seq<byte>, m: seq<byte>, x: int, y: int, k: int)
    requires FrameFits(g, frame) && ScreenFits(g, |m|) && (g.xres % 2 == 0 || g.height <= 1)
    requires 0 <= x < g.Columns() && 0 <= y < g.height && 0 <= k < 4
    ensures AtOwnPosition(g, frame, m, x, y, k)
  {
    ScreenHolds(g, frame, m, x, y, k);
    SameStart(g, y);
  }

  lemma SameStart(g: Geometry, y: int)
    requires g.xres % 2 == 0 || y == 0
    ensures y * g.xres == y * g.Pitch()
  {
    if y != 0 {
      EvenPitch(g);
    }
  }

  lemma EvenPitch(g: Geometry)
    ensures g.Pitch() == g.xres + g.xres % 2
  {
  }

  /** A frame that is black but for the first macropixel of its second row, which is blue. */
  function BluePixel(g: Geometry): (frame: seq<byte>)
    ensures |frame| == 2 * (g.width * g.height)
    ensures forall i :: 0 <= i < |frame| ==> frame[i] == if 2 * g.width <= i < 2 * g.width + 4 then 255 else 0
  {
    seq(2 * (g.width * g.height), i => if 2 * g.width <= i < 2 * g.width + 4 then 255 else 0)
  }

  lemma BlueThere(g: Geometry, frame: seq<byte>)
    requires FrameFits(g, frame) && frame == BluePixel(g) && g.width > 0 && g.height > 1
    ensures Pixel(g, frame, 0, 1).Channel(0) == 255
  {
    MacropixelFits(g, frame, 0, 1);
    assert Pixel(g, frame, 0, 1) == Convert(255, 255, 255);
  }

  /** The byte where a straight picture would show that blue is 0: it belongs to the row above, or to no row. */
  lemma BlackThere(g: Geometry, frame: seq<byte>, m: seq<byte>)
    requires g.Columns() > 0 && g.xres % 2 == 1 && g.height > 1
    requires FrameFits(g, frame) && frame == BluePixel(g)
    requires ScreenFits(g, |m|) && forall i :: 0 <= i < |m| ==> m[i] == 0
    ensures 4 * g.xres < |m| && ScreenAfter(g, frame, m)[4 * g.xres] == 0
  {
    EvenPitch(g);
    ScreenSlotFits(g, |m|, 1, 0);
    if g.width > g.xres {
      ScreenHolds(g, frame, m, g.xres, 0, 0);
      assert 4 * (0 * g.Pitch() + g.xres) + 0 == 4 * g.xres;
      MacropixelFits(g, frame, g.xres, 0);
      assert Pixel(g, frame, g.xres, 0) == Convert(0, 0, 0);
    } else {
      RowMajor(0, g.Pitch(), g.xres);
      assert 4 * g.xres / 4 == g.xres == 0 * g.Pitch() + g.xres;
      ScreenKeeps(g, frame, m, 4 * g.xres);
    }
  }

  lemma NotThere(g: Geometry, frame: seq<byte>, m: seq<byte>)
    requires g.Columns() > 0 && g.xres % 2 == 1 && g.height > 1
    requires FrameFits(g, frame) && frame == BluePixel(g)
    requires ScreenFits(g, |m|) && forall i :: 0 <= i < |m| ==> m[i] == 0
    ensures !AtOwnPosition(g, frame, m, 0, 1, 0)
  {
    BlueThere(g, frame);
    BlackThere(g, frame, m);
    var at := 4 * (1 * g.xres + 0) + 0;
    assert at == 4 * g.xres;
  }

  lemma NotStraight(g: Geometry, frame: seq<byte>, m: seq<byte>)
    requires g.Columns() > 0 && g.xres % 2 == 1 && g.height > 1
    requires FrameFits(g, frame) && frame == BluePixel(g)
    requires ScreenFits(g, |m|) && forall i :: 0 <= i < |m| ==> m[i] == 0
    ensures !Straight(g)
  {
    NotThere(g, frame, m);
  }

  // ----- the accuracy of whole frames

  /** What channel k (0 blue, 1 green, 2 red) of pixel (x, y) stands for, from the bytes of the frame. */
  ghost function Wanted(g: Geometry, frame: seq<byte>, x: int, y: int, k: int): real
    requires FrameFits(g, frame) && 0 <= x < g.width && 0 <= y < g.height
  {
    MacropixelFits(g, frame, x, y);
    var at := 2 * (y * g.width) + 4 * (x / 2);
    var luma: int, u: int, v: int := frame[at + 2 * (x % 2)], frame[at + 1], frame[at + 3];
    (if k == 0 then 298 * luma + 516 * (u - 128)
     else if k == 1 then 298 * luma - 100 * (u - 128) - 208 * (v - 128)
     else 298 * luma + 409 * (v - 128)) as real / 256.0
  }

  /** Channel k of pixel (x, y) is right on the screen, where the pixel is opaque, and in the image. */
  ghost predicate AccurateAt(g: Geometry, frame: seq<byte>, screen: seq<byte>, image: seq<byte>, x: int, y: int, k: int)
    requires FrameFits(g, frame) && 0 <= x < g.width && 0 <= y < g.height && 0 <= k < 3
  {
    var s, i := 4 * (y * (g.xres + g.xres % 2) + x) + k, 3 * ((g.height - 1 - y) * g.width + x) + k;
    && 0 <= s && s + 3 - k < |screen| && Nearest(screen[s], Wanted(g, frame, x, y, k)) && screen[s + 3 - k] == 255
    && 0 <= i < |image| && Nearest(image[i], Wanted(g, frame, x, y, k))
  }

  /**
   After a frame every converted channel, on the screen and in the image, is its linear combination of
   luma and chroma, limited and rounded to nearest.
   */
  lemma FrameAccurate(g: Geometry, frame: seq<byte>, s: seq<byte>, m: seq<byte>)
    requires FrameFits(g, frame) && ScreenFits(g, |s|) && |m| == 3 * (g.width * g.height)
    ensures forall x, y, k | 0 <= x < g.width && x < g.xres + g.xres % 2 && 0 <= y < g.height && 0 <= k < 3 ::
      AccurateAt(g, frame, ScreenAfter(g, frame, s), ImageAfter(g, frame, m), x, y, k)
  {
    forall x, y, k | 0 <= x < g.width && x < g.xres + g.xres % 2 && 0 <= y < g.height && 0 <= k < 3
      ensures AccurateAt(g, frame, ScreenAfter(g, frame, s), ImageAfter(g, frame, m), x, y, k)
    {
      EvenPitch(g);
      AccurateThere(g, frame, s, m, x, y, k);
    }
  }

  lemma AccurateThere(g: Geometry, frame: seq<byte>, s: seq<byte>, m: seq<byte>, x: int, y: int, k: int)
    requires FrameFits(g, frame) && ScreenFits(g, |s|) && |m| == 3 * (g.width * g.height)
    requires 0 <= x < g.Columns() && 0 <= y < g.height && 0 <= k < 3
    ensures AccurateAt(g, frame, ScreenAfter(g, frame, s), ImageAfter(g, frame, m), x, y, k)
  {
    EvenPitch(g);
    ScreenHolds(g, frame, s, x, y, k);
    ScreenHolds(g, frame, s, x, y, 3);
    ImageHolds(g, frame, m, x, y, k);
    PixelNearest(g, frame, x, y, k);
  }

  lemma PixelNearest(g: Geometry, frame: seq<byte>, x: int, y: int, k: int)
    requires FrameFits(g, frame) && 0 <= x < g.width && 0 <= y < g.height && 0 <= k < 3
    ensures Nearest(Pixel(g, frame, x, y).Channel(k), Wanted(g, frame, x, y, k))
  {
    MacropixelFits(g, frame, x, y);
    var at := 2 * (y * g.width) + 4 * (x / 2);
    var luma: int, u: int, v: int := frame[at + 2 * (x % 2)], frame[at + 1], frame[at + 3];
    assert Pixel(g, frame, x, y) == Convert(luma, u, v);
    if k == 0 {
      RoundNearest(298 * luma + 516 * (u - 128));
    } else if k == 1 {
      RoundNearest(298 * luma - 100 * (u - 128) - 208 * (v - 128));
    } else {
      RoundNearest(298 * luma + 409 * (v - 128));
    }
  }
}
