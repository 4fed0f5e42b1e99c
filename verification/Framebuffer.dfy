/** A 32-bit-per-pixel framebuffer and the drawing routines that write into it. */
module Framebuffer {
  import opened Bytes
  import opened Circle

  /** The memory m with every pixel whose number is in slots coloured c, all other bytes kept. */
  function Painted(m: seq<byte>, slots: set<int>, c: Colour): (p: seq<byte>) {
    seq(|m|, i requires 0 <= i < |m| => if i / 4 in slots then c.Channel(i % 4) else m[i])
  }

  lemma PaintedTwice(m: seq<byte>, s: set<int>, t: set<int>, c: Colour)
    ensures Painted(Painted(m, s, c), t, c) == Painted(m, s + t, c)
  {
  }

  // ----- addresses

  /**
   The byte offset of drawpoint as C evaluates it: xres is unsigned, so x and y are reduced
   modulo 2^32, as are the products and the sum; only then comes the division by 8.
   */
  function Offset(xres: nat, x: int, y: int): nat {
    (x % WORD + y % WORD * xres % WORD) % WORD * 32 % WORD / 8
  }

  /** The pixel number behind that offset. */
  function Slot(xres: nat, x: int, y: int): nat {
    (x + y * xres) % 0x800_0000
  }

  lemma ModMul(y: int, k: int)
    ensures y % WORD * k % WORD == y * k % WORD
  {
    var q, m := y / WORD, y % WORD;
    assert y == q * WORD + m;
    assert y * k == q * k * WORD + m * k by {
      assert (q * WORD + m) * k == q * WORD * k + m * k;
      assert q * WORD * k == q * k * WORD;
    }
    ModShift(m * k, q * k);
  }

  lemma ModShift(a: int, t: int)
    ensures (t * WORD + a) % WORD == a % WORD
  {
  }

  lemma ModAdd(a: int, b: int)
    ensures (a % WORD + b % WORD) % WORD == (a + b) % WORD
  {
  }

  lemma ScaledSlot(s: int)
    ensures s % WORD * 32 % WORD / 8 == 4 * (s % 0x800_0000)
  {
    var w, t := s % WORD, s % 0x800_0000;
    assert s == WORD * (s / WORD) + w && s == 0x800_0000 * (s / 0x800_0000) + t;
    var k := s / 0x800_0000 - 32 * (s / WORD);
    assert w == 0x800_0000 * k + t;
    assert w * 32 == k * WORD + 32 * t;
    ModShift(32 * t, k);
  }

  lemma OffsetIsSlot(xres: nat, x: int, y: int)
    ensures Offset(xres, x, y) == 4 * Slot(xres, x, y)
  {
    var p := y * xres;
    assert y % WORD * xres % WORD == p % WORD by { ModMul(y, xres); }
    ModAdd(x, p);
    ScaledSlot(x + p);
  }

  /** On a screen of at most 2^27 pixels, positions on the screen have their row-major number. */
  lemma SlotOnScreen(xres: nat, yres: nat, x: int, y: int)
    requires 0 <= x < xres && 0 <= y < yres && xres * yres <= 0x800_0000
    ensures Slot(xres, x, y) == x + y * xres < xres * yres
  {
    assert (yres - 1 - y) * xres >= 0;
    assert y * xres >= 0;
  }

  /** Different positions on the screen have different numbers. */
  lemma SlotInjective(xres: nat, yres: nat, x: int, y: int, x': int, y': int)
    requires 0 <= x < xres && 0 <= y < yres && 0 <= x' < xres && 0 <= y' < yres
    requires xres * yres <= 0x800_0000
    ensures Slot(xres, x, y) == Slot(xres, x', y') ==> x == x' && y == y'
  {
    SlotOnScreen(xres, yres, x, y);
    SlotOnScreen(xres, yres, x', y');
    RowMajor(y, xres, x);
    RowMajor(y', xres, x');
  }

  // ----- the sets of pixels the routines paint

  /** The pixel numbers of a set of points moved to the centre (cx, cy). */
  ghost function SlotsOf(xres: nat, cx: int, cy: int, points: set<Point>): set<int> {
    set p | p in points :: Slot(xres, cx + p.0, cy + p.1)
  }

  lemma SlotsOfUnion(xres: nat, cx: int, cy: int, a: set<Point>, b: set<Point>)
    ensures SlotsOf(xres, cx, cy, a + b) == SlotsOf(xres, cx, cy, a) + SlotsOf(xres, cx, cy, b)
  {
  }

  ghost function RingPoints(r: int): set<Point> {
    set u, v | -r <= u <= r && -r <= v <= r && OnRing(r, u, v) :: (u, v)
  }

  /** The ring points whose shorter coordinate is below k. */
  ghost function RingBelow(r: int, k: int): set<Point> {
    set p | p in RingPoints(r) && Min(Abs(p.0), Abs(p.1)) < k
  }

  /** The pixels of the ring of radius r around (cx, cy). */
  ghost function RingSlots(xres: nat, cx: int, cy: int, r: int): set<int> {
    SlotsOf(xres, cx, cy, RingPoints(r))
  }

  /** RingPoints misses nothing: the ring lies within r of the centre. */
  lemma RingPointsExact(r: int, u: int, v: int)
    ensures (u, v) in RingPoints(r) <==> OnRing(r, u, v)
  {
    if OnRing(r, u, v) && r >= 1 && Max(Abs(u), Abs(v)) > r {
      Squares(r, Max(Abs(u), Abs(v)) - 1);
      assert false;
    }
  }

  /** The eight reflections of (x, y). */
  function EightPoints(x: int, y: int): set<Point> {
    {(x, y), (y, x), (-x, y), (-y, x), (-x, -y), (-y, -x), (x, -y), (y, -x)}
  }

  lemma EightPointsExact(x: int, y: int, p: Point)
    requires x >= y >= 0
    ensures p in EightPoints(x, y) <==> Max(Abs(p.0), Abs(p.1)) == x && Min(Abs(p.0), Abs(p.1)) == y
  {
  }

  /** The ring points with shorter coordinate y are the eight reflections of (x, y). */
  lemma RowOfRing(r: int, x: int, y: int, p: Point)
    requires r >= 1 && x >= y >= 0 && OnRing(r, x, y)
    ensures OnRing(r, p.0, p.1) && Min(Abs(p.0), Abs(p.1)) == y <==> p in EightPoints(x, y)
  {
    EightPointsExact(x, y, p);
    var M := Max(Abs(p.0), Abs(p.1));
    if OnRing(r, p.0, p.1) && Min(Abs(p.0), Abs(p.1)) == y {
      RingColumnUnique(r, x, M, y);
    }
  }

  lemma RingBelowStep(r: int, c: Cursor)
    requires Good(r, c)
    ensures RingBelow(r, c.y + 1) == RingBelow(r, c.y) + EightPoints(c.x, c.y)
  {
    forall p: Point
      ensures p in RingBelow(r, c.y + 1) <==> p in RingBelow(r, c.y) || p in EightPoints(c.x, c.y)
    {
      RingBelowStepAt(r, c, p);
    }
  }

  lemma RingBelowStepAt(r: int, c: Cursor, p: Point)
    requires Good(r, c)
    ensures p in RingBelow(r, c.y + 1) <==> p in RingBelow(r, c.y) || p in EightPoints(c.x, c.y)
  {
    RowOfRing(r, c.x, c.y, p);
    RingPointsExact(r, p.0, p.1);
  }

  lemma RingBelowDone(r: int, c: Cursor)
    requires Good(r, c) && Next(c).x < Next(c).y
    ensures RingBelow(r, c.y + 1) == RingPoints(r)
  {
    forall p | p in RingPoints(r) ensures Min(Abs(p.0), Abs(p.1)) < c.y + 1 {
      NoneLeft(r, c, p);
    }
  }

  lemma NoneLeft(r: int, c: Cursor, p: Point)
    requires Good(r, c) && Next(c).x < Next(c).y && OnRing(r, p.0, p.1)
    ensures Min(Abs(p.0), Abs(p.1)) <= c.y
  {
    if Min(Abs(p.0), Abs(p.1)) > c.y {
      ExitExhausts(r, c, Max(Abs(p.0), Abs(p.1)), Min(Abs(p.0), Abs(p.1)));
    }
  }

  lemma RingPointsZero()
    ensures RingPoints(0) == {(0, 0)} == EightPoints(0, 0)
  {
    assert OnRing(0, 0, 0);
  }

  // ----- rectangles

  ghost function FaceSlots(xres: nat, x0: int, y0: int, x1: int, y1: int): set<int> {
    set x, y | x0 <= x < x1 && y0 <= y < y1 :: Slot(xres, x, y)
  }

  lemma FaceSlotsSplit(xres: nat, x0: int, y0: int, x: int, y1: int)
    requires x0 <= x
    ensures FaceSlots(xres, x0, y0, x + 1, y1) == FaceSlots(xres, x0, y0, x, y1) + FaceSlots(xres, x, y0, x + 1, y1)
  {
  }

  lemma FaceSlotsGrow(xres: nat, x: int, y0: int, y: int)
    requires y0 <= y
    ensures FaceSlots(xres, x, y0, x + 1, y + 1) == FaceSlots(xres, x, y0, x + 1, y) + {Slot(xres, x, y)}
  {
  }

  /** The mapped byte drawfacemmap addresses as (x, y); the row term is an unsigned 32-bit product. */
  function Cell(xres: nat, x: int, y: int): int {
    x + y * xres * 4 % WORD
  }

  /** The byte cursor takes every fourth value from x0 on; x0 is not scaled to bytes, x1 is. */
  predicate Visits(x0: int, x1: int, x: int) {
    x0 <= x < 4 * x1 && (x - x0) % 4 == 0
  }

  /** Every store of drawfacemmap falls inside the mapping of size bytes. */
  ghost predicate InMapping(size: nat, xres: nat, x0: int, y0: int, x1: int, y1: int) {
    forall x, y | Visits(x0, x1, x) && y0 <= y < y1 :: 0 <= Cell(xres, x, y) && Cell(xres, x, y) + 3 < size
  }

  /** The bytes stored at cursor positions below xb, and at xb in the rows below yb. */
  ghost predicate Stored(xres: nat, x0: int, y0: int, x1: int, y1: int, xb: int, yb: int, i: int) {
    exists x, y | Visits(x0, x1, x) && y0 <= y < y1 && (x < xb || (x == xb && y < yb)) ::
      Cell(xres, x, y) <= i <= Cell(xres, x, y) + 3
  }

  ghost function StoredUpTo(m: seq<byte>, xres: nat, x0: int, y0: int, x1: int, y1: int, xb: int, yb: int, c: Colour)
    : seq<byte>
  {
    seq(|m|, i requires 0 <= i < |m| =>
      if Stored(xres, x0, y0, x1, y1, xb, yb, i) then c.Channel((i - x0) % 4) else m[i])
  }

  /** The whole effect of drawfacemmap on the mapping. */
  ghost function MapPainted(m: seq<byte>, xres: nat, x0: int, y0: int, x1: int, y1: int, c: Colour): seq<byte> {
    StoredUpTo(m, xres, x0, y0, x1, y1, 4 * x1, y0, c)
  }

  lemma CellAligned(xres: nat, x0: int, x: int, y: int)
    requires (x - x0) % 4 == 0
    ensures (Cell(xres, x, y) - x0) % 4 == 0
  {
    RowTermAligned(y * xres);
  }

  lemma RowTermAligned(s: int)
    ensures s * 4 % WORD % 4 == 0
  {
    var q, t := s / 0x4000_0000, s % 0x4000_0000;
    assert s * 4 == q * WORD + 4 * t;
    ModShift(4 * t, q);
  }

  lemma ChannelsAligned(k: int)
    requires k % 4 == 0
    ensures (k + 1) % 4 == 1 && (k + 2) % 4 == 2 && (k + 3) % 4 == 3
  {
  }

  lemma StoredGrows(xres: nat, x0: int, y0: int, x1: int, y1: int, x: int, y: int, i: int)
    requires Visits(x0, x1, x) && y0 <= y < y1
    ensures Stored(xres, x0, y0, x1, y1, x, y + 1, i) <==>
      Stored(xres, x0, y0, x1, y1, x, y, i) || Cell(xres, x, y) <= i <= Cell(xres, x, y) + 3
  {
  }

  lemma StoredStep(m: seq<byte>, xres: nat, x0: int, y0: int, x1: int, y1: int, x: int, y: int, c: Colour)
    requires Visits(x0, x1, x) && y0 <= y < y1
    requires 0 <= Cell(xres, x, y) && Cell(xres, x, y) + 3 < |m|
    ensures var i, p := Cell(xres, x, y), StoredUpTo(m, xres, x0, y0, x1, y1, x, y, c);
      StoredUpTo(m, xres, x0, y0, x1, y1, x, y + 1, c) ==
        p[i := c.b][i + 1 := c.g][i + 2 := c.r][i + 3 := 0xFF]
  {
    var k := Cell(xres, x, y);
    CellAligned(xres, x0, x, y);
    forall i | 0 <= i < |m|
      ensures Stored(xres, x0, y0, x1, y1, x, y + 1, i) <==>
        Stored(xres, x0, y0, x1, y1, x, y, i) || k <= i <= k + 3
    {
      StoredGrows(xres, x0, y0, x1, y1, x, y, i);
    }
    ChannelsAligned(k - x0);
  }

  lemma StoredNextColumn(m: seq<byte>, xres: nat, x0: int, y0: int, x1: int, y1: int, x: int, c: Colour)
    requires Visits(x0, x1, x)
    ensures StoredUpTo(m, xres, x0, y0, x1, y1, x, Max(y0, y1), c) == StoredUpTo(m, xres, x0, y0, x1, y1, x + 4, y0, c)
  {
    forall i ensures Stored(xres, x0, y0, x1, y1, x, Max(y0, y1), i) <==> Stored(xres, x0, y0, x1, y1, x + 4, y0, i) {
      assert forall x' | Visits(x0, x1, x') :: x' < x + 4 <==> x' <= x;
    }
  }

  lemma StoredAll(m: seq<byte>, xres: nat, x0: int, y0: int, x1: int, y1: int, x: int, c: Colour)
    requires x >= 4 * x1
    ensures StoredUpTo(m, xres, x0, y0, x1, y1, x, y0, c) == MapPainted(m, xres, x0, y0, x1, y1, c)
  {
    forall i ensures Stored(xres, x0, y0, x1, y1, x, y0, i) <==> Stored(xres, x0, y0, x1, y1, 4 * x1, y0, i) {
    }
  }

  class Screen {
    const xres: nat
    const yres: nat
    const mem: array<byte>

    ghost predicate Valid() {
      mem.Length == 4 * (xres * yres) && xres * yres <= 0x800_0000
    }

    constructor (xres: nat, yres: nat, mem: array<byte>)
      requires mem.Length == 4 * (xres * yres) && xres * yres <= 0x800_0000
      ensures Valid() && this.xres == xres && this.yres == yres && this.mem == mem
    {
      this.xres, this.yres, this.mem := xres, yres, mem;
    }

    /** Four one-byte writes from the offset on; a write past the end of the device stores nothing. */
    method DrawPoint(x: int, y: int, c: Colour)
      requires Valid()
      modifies mem
      ensures mem[..] == Painted(old(mem[..]), {Slot(xres, x, y)}, c)
      ensures var at, m := 4 * ((x + y * xres) % 0x800_0000), old(mem[..]);
        mem[..] == if at >= mem.Length then m
                   else m[at := c.b][at + 1 := c.g][at + 2 := c.r][at + 3 := 0xFF]
    {
      OffsetIsSlot(xres, x, y);
      var offset := Offset(xres, x, y);
      if offset < mem.Length {
        mem[offset] := c.b;
        mem[offset + 1] := c.g;
        mem[offset + 2] := c.r;
        mem[offset + 3] := 0xFF;
      }
    }

    /** One call drawpoint(u + cx, v + cy) on top of the points already painted. */
    method DrawAround(u: int, v: int, cx: int, cy: int, c: Colour, ghost m: seq<byte>, ghost done: set<Point>)
      returns (ghost now: set<Point>)
      requires Valid() && mem[..] == Painted(m, SlotsOf(xres, cx, cy, done), c)
      modifies mem
      ensures now == done + {(u, v)} && mem[..] == Painted(m, SlotsOf(xres, cx, cy, now), c)
    {
      DrawPoint(u + cx, v + cy, c);
      PaintedTwice(m, SlotsOf(xres, cx, cy, done), {Slot(xres, u + cx, v + cy)}, c);
      SlotsOfUnion(xres, cx, cy, done, {(u, v)});
      assert SlotsOf(xres, cx, cy, {(u, v)}) == {Slot(xres, u + cx, v + cy)};
      now := done + {(u, v)};
    }

    /** The eight calls of drawpoint in one iteration of the circle loop. */
    method DrawEight(x: int, y: int, cx: int, cy: int, c: Colour, ghost m: seq<byte>, ghost done: set<Point>)
      requires Valid() && mem[..] == Painted(m, SlotsOf(xres, cx, cy, done), c)
      modifies mem
      ensures mem[..] == Painted(m, SlotsOf(xres, cx, cy, done + EightPoints(x, y)), c)
    {
      ghost var s := DrawAround(x, y, cx, cy, c, m, done);
      s := DrawAround(y, x, cx, cy, c, m, s);
      s := DrawAround(-x, y, cx, cy, c, m, s);
      s := DrawAround(-y, x, cx, cy, c, m, s);
      s := DrawAround(-x, -y, cx, cy, c, m, s);
      s := DrawAround(-y, -x, cx, cy, c, m, s);
      s := DrawAround(x, -y, cx, cy, c, m, s);
      s := DrawAround(y, -x, cx, cy, c, m, s);
      assert s == done + EightPoints(x, y);
    }

    /**
     For every centre and every radius: exactly the ring is painted, and nothing else is touched.
     walked lists the values of (x, y) at the heads of the loop.
     */
    method DrawCircle(cx: int, cy: int, radius: int, c: Colour) returns (ghost walked: seq<Point>)
      requires Valid()
      modifies mem
      ensures walked == Octant(Start(radius))
      ensures mem[..] == Painted(old(mem[..]), RingSlots(xres, cx, cy, radius), c)
    {
      var x, y := radius, 0;
      var radiusError := 1 - x;
      ghost var m := mem[..];
      ghost var done: set<Point> := {};
      walked := [];
      if radius >= 1 {
        StartGood(radius);
        assert done == RingBelow(radius, 0);
      }
      while x >= y
        invariant walked + Octant(Cursor(x, y, radiusError)) == Octant(Start(radius))
        invariant mem[..] == Painted(m, SlotsOf(xres, cx, cy, done), c)
        invariant radius >= 1 && x >= y ==>
          Good(radius, Cursor(x, y, radiusError)) && done == RingBelow(radius, y)
        invariant radius < 1 && x >= y ==> x == y == 0 == radius && radiusError == 1 && done == {}
        invariant x < y ==> done == RingPoints(radius)
        decreases x - y + 1
      {
        ghost var at := Cursor(x, y, radiusError);
        assert walked + Octant(at) == walked + [(x, y)] + Octant(Next(at));
        walked := walked + [(x, y)];
        DrawEight(x, y, cx, cy, c, m, done);
        done := done + EightPoints(x, y);
        y := y + 1;
        if radiusError < 0 {
          radiusError := radiusError + (2 * y + 1);
        } else {
          x := x - 1;
          radiusError := radiusError + 2 * (y - x + 1);
        }
        assert Cursor(x, y, radiusError) == Next(at);
        LoopStep(radius, at, done);
      }
    }

    /** The slow fill: one lseek and four writes a pixel. */
    method DrawFace(start_x: int, start_y: int, end_x: int, end_y: int, c: Colour)
      requires Valid()
      modifies mem
      ensures var x1, y1 := if end_x == 0 then xres else end_x, if end_y == 0 then yres else end_y;
        && mem[..] == Painted(old(mem[..]), FaceSlots(xres, start_x, start_y, x1, y1), c)
        && mem[..] == Painted(old(mem[..]),
             set x, y | start_x <= x < x1 && start_y <= y < y1 :: Slot(xres, x, y), c)
    {
      var x1 := if end_x == 0 then xres else end_x;
      var y1 := if end_y == 0 then yres else end_y;
      ghost var m := mem[..];
      var x := start_x;
      while x < x1
        invariant x == start_x || start_x < x <= x1
        invariant mem[..] == Painted(m, FaceSlots(xres, start_x, start_y, x, y1), c)
      {
        var y := start_y;
        ghost var done := FaceSlots(xres, start_x, start_y, x, y1);
        while y < y1
          invariant y == start_y || start_y < y <= y1
          invariant mem[..] == Painted(m, done + FaceSlots(xres, x, start_y, x + 1, y), c)
        {
          DrawPoint(x, y, c);
          ghost var column := FaceSlots(xres, x, start_y, x + 1, y);
          PaintedTwice(m, done + column, {Slot(xres, x, y)}, c);
          FaceSlotsGrow(xres, x, start_y, y);
          assert done + column + {Slot(xres, x, y)} == done + FaceSlots(xres, x, start_y, x + 1, y + 1);
          y := y + 1;
        }
        assert FaceSlots(xres, x, start_y, x + 1, y) == FaceSlots(xres, x, start_y, x + 1, y1);
        FaceSlotsSplit(xres, start_x, start_y, x, y1);
        x := x + 1;
      }
      assert FaceSlots(xres, start_x, start_y, x, y1) == FaceSlots(xres, start_x, start_y, x1, y1);
    }

    /** The four stores of one iteration of the fast fill. */
    method StoreCell(at: nat, c: Colour)
      requires at + 3 < mem.Length
      modifies mem
      ensures mem[..] == old(mem[..])[at := c.b][at + 1 := c.g][at + 2 := c.r][at + 3 := 0xFF]
    {
      mem[at + 0] := c.b;
      mem[at + 1] := c.g;
      mem[at + 2] := c.r;
      mem[at + 3] := 0xFF;
    }

    /** The fast fill: stores through a memory map, with a byte cursor for x. */
    method DrawFaceMmap(start_x: int, start_y: int, end_x: int, end_y: int, c: Colour)
      requires Valid()
      requires var x1, y1 := if end_x == 0 then xres else end_x, if end_y == 0 then yres else end_y;
        InMapping(mem.Length, xres, start_x, start_y, x1, y1)
      modifies mem
      ensures var x1, y1 := if end_x == 0 then xres else end_x, if end_y == 0 then yres else end_y;
        mem[..] == MapPainted(old(mem[..]), xres, start_x, start_y, x1, y1, c)
    {
      var color := 4;
      var x1 := if end_x == 0 then xres else end_x;
      var y1 := if end_y == 0 then yres else end_y;
      ghost var m := mem[..];
      var x := start_x;
      while x < x1 * color
        invariant x >= start_x && (x - start_x) % 4 == 0
        invariant mem[..] == StoredUpTo(m, xres, start_x, start_y, x1, y1, x, start_y, c)
      {
        var y := start_y;
        while y < y1
          invariant start_y <= y <= Max(start_y, y1)
          invariant mem[..] == StoredUpTo(m, xres, start_x, start_y, x1, y1, x, y, c)
        {
          StoredStep(m, xres, start_x, start_y, x1, y1, x, y, c);
          StoreCell(x + y * xres * 4 % WORD, c);
          y := y + 1;
        }
        StoredNextColumn(m, xres, start_x, start_y, x1, y1, x, c);
        x := x + color;
      }
      StoredAll(m, xres, start_x, start_y, x1, y1, x, c);
    }
  }

  /** What one iteration adds keeps the loop invariant and, at the last one, completes the ring. */
  lemma LoopStep(r: int, c: Cursor, done: set<Point>)
    requires c.x >= c.y
    requires if r >= 1 then Good(r, c) && done == RingBelow(r, c.y) + EightPoints(c.x, c.y)
             else c == Cursor(0, 0, 1) && r == 0 && done == EightPoints(0, 0)
    ensures r >= 1 && Next(c).x >= Next(c).y ==> Good(r, Next(c)) && done == RingBelow(r, Next(c).y)
    ensures Next(c).x < Next(c).y ==> done == RingPoints(r)
    ensures r < 1 ==> Next(c).x < Next(c).y
  {
    if r < 1 {
      RingPointsZero();
    } else {
      RingBelowStep(r, c);
      if Next(c).x < Next(c).y {
        RingBelowDone(r, c);
      } else {
        NextGood(r, c);
      }
    }
  }
}
