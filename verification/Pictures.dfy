/** What the drawing routines leave on the screen, pixel by pixel, and when the two fills agree. */
module Pictures {
  import opened Bytes
  import opened Circle
  import opened Framebuffer
  import Ring

  /** The byte of channel k of the pixel (x, y). */
  function At(xres: nat, x: int, y: int, k: int): int {
    4 * (x + y * xres) + k
  }

  ghost predicate OnScreen(xres: nat, yres: nat, x: int, y: int) {
    0 <= x < xres && 0 <= y < yres
  }

  lemma AtBounds(xres: nat, yres: nat, x: int, y: int, k: int)
    requires OnScreen(xres, yres, x, y) && 0 <= k < 4 && xres * yres <= 0x800_0000
    ensures 0 <= At(xres, x, y, k) < 4 * (xres * yres)
    ensures At(xres, x, y, k) / 4 == Slot(xres, x, y) && At(xres, x, y, k) % 4 == k
  {
    SlotOnScreen(xres, yres, x, y);
  }

  /** Every byte of the screen is a channel of one pixel. */
  lemma AtCovers(xres: nat, yres: nat, i: nat) returns (x: int, y: int)
    requires i < 4 * (xres * yres)
    ensures OnScreen(xres, yres, x, y) && i == At(xres, x, y, i % 4)
  {
    var q := i / 4;
    x, y := q % xres, q / xres;
    assert q == xres * y + x;
    assert (y - yres) * xres == q - x - xres * yres < 0;
  }

  /** A point of the ring colours its slot, and a coloured slot is that of a point of the ring. */
  lemma SlotPainted(xres: nat, cx: int, cy: int, r: int, u: int, v: int)
    requires OnRing(r, u, v)
    ensures Slot(xres, cx + u, cy + v) in RingSlots(xres, cx, cy, r)
  {
    RingPointsExact(r, u, v);
    var p := (u, v);
    assert p in RingPoints(r) && Slot(xres, cx + p.0, cy + p.1) == Slot(xres, cx + u, cy + v);
  }

  lemma PaintedSlot(xres: nat, cx: int, cy: int, r: int, s: int) returns (p: Point)
    requires s in RingSlots(xres, cx, cy, r)
    ensures p in RingPoints(r) && OnRing(r, p.0, p.1) && Slot(xres, cx + p.0, cy + p.1) == s
  {
    p :| p in RingPoints(r) && Slot(xres, cx + p.0, cy + p.1) == s;
  }

  /** The channels of a coloured pixel of the screen. */
  lemma PixelPainted(m: seq<byte>, slots: set<int>, xres: nat, yres: nat, c: Colour, x: int, y: int, k: int)
    requires |m| == 4 * (xres * yres) && xres * yres <= 0x800_0000 && OnScreen(xres, yres, x, y) && 0 <= k < 4
    ensures var at := At(xres, x, y, k);
      0 <= at < |m| && Painted(m, slots, c)[at] == if Slot(xres, x, y) in slots then c.Channel(k) else m[at]
  {
    AtBounds(xres, yres, x, y, k);
  }

  /** Positions of a screen column, above or below the screen by not too much, are not mistaken for others. */
  lemma SlotOfColumn(xres: nat, yres: nat, x: int, y: int, x': int, y': int)
    requires OnScreen(xres, yres, x, y) && 0 <= x' < xres && xres * yres <= 0x800_0000
    requires xres * yres - 0x800_0000 <= y' * xres && (y' + 1) * xres <= 0x800_0000
    ensures Slot(xres, x', y') == Slot(xres, x, y) ==> x' == x && y' == y
  {
    SlotOnScreen(xres, yres, x, y);
    RowMajor(y, xres, x);
    RowMajor(y', xres, x');
    var s := x' + y' * xres;
    assert (y' + 1) * xres == y' * xres + xres;
    assert xres * yres - 0x800_0000 <= s < 0x800_0000;
    assert s < 0 ==> Slot(xres, x', y') == s + 0x800_0000;
    assert s >= 0 ==> Slot(xres, x', y') == s;
  }

  /** The rows the circle touches stay where 32-bit offsets do not come round to the screen again. */
  ghost predicate RowsInRange(xres: nat, yres: nat, cy: int, r: nat) {
    forall y | cy - r <= y <= cy + r :: InRange(xres, yres, y)
  }

  ghost predicate InRange(xres: nat, yres: nat, y: int) {
    xres * yres - 0x800_0000 <= y * xres && (y + 1) * xres <= 0x800_0000
  }

  /** A circle between the left and right edges: the picture is the ring, clipped at the top and bottom. */
  lemma CircleClipped(m: seq<byte>, xres: nat, yres: nat, cx: int, cy: int, r: nat, c: Colour, x: int, y: int, k: int)
    requires |m| == 4 * (xres * yres) && xres * yres <= 0x800_0000
    requires r <= cx < xres - r && RowsInRange(xres, yres, cy, r)
    requires OnScreen(xres, yres, x, y) && 0 <= k < 4
    ensures 0 <= At(xres, x, y, k) < |m|
    ensures Painted(m, RingSlots(xres, cx, cy, r), c)[At(xres, x, y, k)] ==
      if OnRing(r, x - cx, y - cy) then c.Channel(k) else m[At(xres, x, y, k)]
  {
    PixelPainted(m, RingSlots(xres, cx, cy, r), xres, yres, c, x, y, k);
    if OnRing(r, x - cx, y - cy) {
      SlotPainted(xres, cx, cy, r, x - cx, y - cy);
    }
    if Slot(xres, x, y) in RingSlots(xres, cx, cy, r) {
      var p := PaintedSlot(xres, cx, cy, r, Slot(xres, x, y));
      RingPointsExact(r, p.0, p.1);
      assert InRange(xres, yres, cy + p.1);
      SlotOfColumn(xres, yres, x, y, cx + p.0, cy + p.1);
    }
  }

  /** Screen widths between a column and the screen, and the row and column it is mistaken for. */
  lemma Wrapped(xres: nat, x: int, y: int)
    requires xres > 0
    ensures (x + y * xres) / xres == y + x / xres && (x + y * xres) % xres == x % xres
  {
    assert x == xres * (x / xres) + x % xres;
    assert x + y * xres == (y + x / xres) * xres + x % xres;
    RowMajor(y + x / xres, xres, x % xres);
  }

  /** A column moved by whole screen widths is too far away to be on a ring narrower than the screen. */
  lemma WrappedOffRing(xres: nat, r: nat, u: int, v: int, w: int, v': int)
    requires 2 * r < xres && OnRing(r, u, v) && w != 0
    ensures !OnRing(r, u - w * xres, v')
  {
    RingPointsExact(r, u, v);
    RingPointsExact(r, u - w * xres, v');
    if w > 0 {
      MulAtLeast(w, xres);
    } else {
      MulAtLeast(-w, xres);
      assert -w * xres == -(w * xres);
    }
  }

  /**
   Past the left or right edge the source does not clip. A ring pixel there appears in its column
   modulo the screen width, one row up for each screen width it lies to the left of the screen and
   one row down for each to the right; on a screen wider than the circle that is never a ring position.
   */
  lemma OverhangWraps(m: seq<byte>, xres: nat, yres: nat, cx: int, cy: int, r: nat, c: Colour, u: int, v: int, k: int)
    requires |m| == 4 * (xres * yres) && xres * yres <= 0x800_0000
    requires OnRing(r, u, v) && 0 <= k < 4 && !(0 <= cx + u < xres)
    requires 0 <= (cx + u) + (cy + v) * xres < xres * yres
    ensures var x, y := (cx + u) % xres, cy + v + (cx + u) / xres;
      && OnScreen(xres, yres, x, y) && y != cy + v
      && 0 <= At(xres, x, y, k) < |m|
      && Painted(m, RingSlots(xres, cx, cy, r), c)[At(xres, x, y, k)] == c.Channel(k)
      && (2 * r < xres ==> !OnRing(r, x - cx, y - cy))
  {
    var x, y, w := (cx + u) % xres, cy + v + (cx + u) / xres, (cx + u) / xres;
    Wrapped(xres, cx + u, cy + v);
    WrappedOnScreen(xres, yres, cx + u, cy + v);
    PixelPainted(m, RingSlots(xres, cx, cy, r), xres, yres, c, x, y, k);
    SlotPainted(xres, cx, cy, r, u, v);
    WidthsAway(xres, cx + u);
    if 2 * r < xres {
      WrappedOffRing(xres, r, u, v, w, y - cy);
    }
  }

  lemma WidthsAway(xres: nat, x: int)
    requires xres > 0
    ensures x == x / xres * xres + x % xres
    ensures x / xres == 0 <==> 0 <= x < xres
  {
    var w, d := x / xres, x % xres;
    assert x == xres * w + d;
    if 0 <= x < xres {
      RowMajor(0, xres, x);
    }
  }

  lemma WrappedOnScreen(xres: nat, yres: nat, x: int, y: int)
    requires xres * yres <= 0x800_0000 && 0 <= x + y * xres < xres * yres
    ensures xres > 0 && OnScreen(xres, yres, x % xres, y + x / xres)
    ensures Slot(xres, x, y) == Slot(xres, x % xres, y + x / xres)
  {
    var s := x + y * xres;
    var x', y' := AtCovers(xres, yres, 4 * s);
    Wrapped(xres, x, y);
    RowMajor(y', xres, x');
  }

  // ----- exactly when the picture is the clipped ring

  /** What the screen shows at channel k of (x, y) if drawing were clipped to the screen. */
  ghost predicate ShowsClipped(m: seq<byte>, xres: nat, cx: int, cy: int, r: nat, c: Colour, x: int, y: int, k: int) {
    var at := At(xres, x, y, k);
    && 0 <= at < |m|
    && Painted(m, RingSlots(xres, cx, cy, r), c)[at] == if OnRing(r, x - cx, y - cy) then c.Channel(k) else m[at]
  }

  /** Drawing leaves the clipped ring on every screen content. */
  ghost predicate IsClipped(xres: nat, yres: nat, cx: int, cy: int, r: nat, c: Colour) {
    forall m: seq<byte>, x, y, k | |m| == 4 * (xres * yres) && OnScreen(xres, yres, x, y) && 0 <= k < 4 ::
      ShowsClipped(m, xres, cx, cy, r, c, x, y, k)
  }

  /** The ring pixel p is stored off the screen, or at the position of a ring pixel. */
  ghost predicate LandsOnRing(xres: nat, yres: nat, cx: int, cy: int, r: nat, p: Point) {
    var s := Slot(xres, cx + p.0, cy + p.1);
    s < xres * yres ==> xres > 0 && OnRing(r, s % xres - cx, s / xres - cy)
  }

  lemma ClippedAt(m: seq<byte>, xres: nat, yres: nat, cx: int, cy: int, r: nat, c: Colour, x: int, y: int, k: int)
    requires |m| == 4 * (xres * yres) && xres * yres <= 0x800_0000
    requires OnScreen(xres, yres, x, y) && 0 <= k < 4
    requires forall p | p in RingPoints(r) :: LandsOnRing(xres, yres, cx, cy, r, p)
    ensures ShowsClipped(m, xres, cx, cy, r, c, x, y, k)
  {
    PixelPainted(m, RingSlots(xres, cx, cy, r), xres, yres, c, x, y, k);
    if OnRing(r, x - cx, y - cy) {
      SlotPainted(xres, cx, cy, r, x - cx, y - cy);
    }
    if Slot(xres, x, y) in RingSlots(xres, cx, cy, r) {
      var p := PaintedSlot(xres, cx, cy, r, Slot(xres, x, y));
      assert LandsOnRing(xres, yres, cx, cy, r, p);
      SlotOnScreen(xres, yres, x, y);
      RowMajor(y, xres, x);
    }
  }

  /** A screen content that no colour channel of c equals. */
  function OtherThan(c: Colour, size: nat): (m: seq<byte>)
    ensures |m| == size && forall i :: 0 <= i < size ==> m[i] != c.b
  {
    seq(size, _ => if c.b == 0 then 1 else 0)
  }

  lemma NotClippedAt(xres: nat, yres: nat, cx: int, cy: int, r: nat, c: Colour, p: Point)
    requires xres * yres <= 0x800_0000
    requires p in RingPoints(r) && !LandsOnRing(xres, yres, cx, cy, r, p)
    ensures !IsClipped(xres, yres, cx, cy, r, c)
  {
    var s := Slot(xres, cx + p.0, cy + p.1);
    var x, y := AtCovers(xres, yres, 4 * s);
    RowMajor(y, xres, x);
    SlotOnScreen(xres, yres, x, y);
    var m := OtherThan(c, 4 * (xres * yres));
    SlotPainted(xres, cx, cy, r, p.0, p.1);
    PixelPainted(m, RingSlots(xres, cx, cy, r), xres, yres, c, x, y, 0);
    assert !ShowsClipped(m, xres, cx, cy, r, c, x, y, 0);
  }

  /** For every circle and screen: the picture is the clipped ring if and only if no ring pixel lands beside it. */
  lemma ClippedIffLandsOnRing(xres: nat, yres: nat, cx: int, cy: int, r: nat, c: Colour)
    requires xres * yres <= 0x800_0000
    ensures IsClipped(xres, yres, cx, cy, r, c) <==>
      forall p | p in RingPoints(r) :: LandsOnRing(xres, yres, cx, cy, r, p)
  {
    if forall p | p in RingPoints(r) :: LandsOnRing(xres, yres, cx, cy, r, p) {
      forall m: seq<byte>, x, y, k | |m| == 4 * (xres * yres) && OnScreen(xres, yres, x, y) && 0 <= k < 4
        ensures ShowsClipped(m, xres, cx, cy, r, c, x, y, k)
      {
        ClippedAt(m, xres, yres, cx, cy, r, c, x, y, k);
      }
    } else {
      var p :| p in RingPoints(r) && !LandsOnRing(xres, yres, cx, cy, r, p);
      NotClippedAt(xres, yres, cx, cy, r, c, p);
    }
  }

  lemma AxisPoints(r: nat)
    ensures OnRing(r, r, 0) && OnRing(r, 0 - r, 0)
  {
    if r >= 1 {
      StartGood(r);
    }
  }

  lemma OverhangNotClipped(xres: nat, yres: nat, cx: int, cy: int, r: nat, c: Colour, u: int, v: int)
    requires xres * yres <= 0x800_0000 && 2 * r < xres && OnRing(r, u, v)
    requires !(0 <= cx + u < xres) && 0 <= (cx + u) + (cy + v) * xres < xres * yres
    ensures !IsClipped(xres, yres, cx, cy, r, c)
  {
    var m := OtherThan(c, 4 * (xres * yres));
    OverhangWraps(m, xres, yres, cx, cy, r, c, u, v, 0);
    assert !ShowsClipped(m, xres, cx, cy, r, c, (cx + u) % xres, cy + v + (cx + u) / xres, 0);
  }

  /**
   The condition a caller can check, for a circle narrower than the screen whose leftmost and rightmost
   pixels have offsets on the screen: the picture is the clipped ring if and only if the circle
   lies between the left and right edges.
   */
  lemma ClippedIff(xres: nat, yres: nat, cx: int, cy: int, r: nat, c: Colour)
    requires xres * yres <= 0x800_0000 && 2 * r < xres && RowsInRange(xres, yres, cy, r)
    requires 0 <= cx - r + cy * xres && cx + r + cy * xres < xres * yres
    ensures IsClipped(xres, yres, cx, cy, r, c) <==> r <= cx < xres - r
  {
    AxisPoints(r);
    if r <= cx < xres - r {
      forall m: seq<byte>, x, y, k | |m| == 4 * (xres * yres) && OnScreen(xres, yres, x, y) && 0 <= k < 4
        ensures ShowsClipped(m, xres, cx, cy, r, c, x, y, k)
      {
        CircleClipped(m, xres, yres, cx, cy, r, c, x, y, k);
      }
    } else if cx < r {
      OverhangNotClipped(xres, yres, cx, cy, r, c, 0 - r, 0);
    } else {
      OverhangNotClipped(xres, yres, cx, cy, r, c, r, 0);
    }
  }

  /** A concrete failure: radius 2 around (0, 2) on a screen of 8 by 4 pixels. */
  lemma ClippingFails(c: Colour)
    ensures !IsClipped(8, 4, 0, 2, 2, c)
  {
    ClippedIff(8, 4, 0, 2, 2, c);
  }

  // ----- circles around a pixel of the screen

  lemma NextToAxis(r: int)
    requires r >= 2
    ensures OnRing(r, -r, 1) && OnRing(r, r, -1)
  {
    assert (r - 1) * (r - 1) == r * r - 2 * r + 1;
  }

  /** Radius 1 in the upper left or lower right corner: the overhanging pixels have no offset on the screen. */
  predicate CornerDot(xres: nat, yres: nat, cx: int, cy: int, r: nat) {
    r == 1 && ((cx == 0 && cy == 0) || (cx == xres - 1 && cy == yres - 1))
  }

  lemma CornerDotLands(xres: nat, yres: nat, cx: int, cy: int, p: Point)
    requires xres * yres <= 0x800_0000 && 2 < xres && RowsInRange(xres, yres, cy, 1)
    requires OnScreen(xres, yres, cx, cy) && CornerDot(xres, yres, cx, cy, 1) && p in RingPoints(1)
    ensures LandsOnRing(xres, yres, cx, cy, 1, p)
  {
    Ring.RadiusOne(1, p);
    assert InRange(xres, yres, cy + p.1);
    var x, y := cx + p.0, cy + p.1;
    assert (y + 1) * xres == y * xres + xres;
    if OnScreen(xres, yres, x, y) {
      SlotOnScreen(xres, yres, x, y);
      RowMajor(y, xres, x);
    } else {
      OffCorner(xres, yres, cx, cy, p);
    }
  }

  lemma OffCorner(xres: nat, yres: nat, cx: int, cy: int, p: Point)
    requires xres * yres <= 0x800_0000 && 2 < xres && RowsInRange(xres, yres, cy, 1)
    requires OnScreen(xres, yres, cx, cy) && CornerDot(xres, yres, cx, cy, 1) && Abs(p.0) + Abs(p.1) == 1
    requires !OnScreen(xres, yres, cx + p.0, cy + p.1)
    ensures Slot(xres, cx + p.0, cy + p.1) >= xres * yres
  {
    assert InRange(xres, yres, cy - 1) && InRange(xres, yres, cy + 1);
    var t := cy * xres;
    assert (cy + 1) * xres == t + xres && (cy - 1) * xres == t - xres && (cy + 2) * xres == t + 2 * xres;
    assert (yres - 1) * xres == xres * yres - xres;
    RowsBelow(1, yres, xres);
    assert cy == 0 ==> t == 0;
    assert p.1 == 0 || p.1 == 1 || p.1 == -1;
    assert (cy + p.1) * xres == if p.1 == 0 then t else if p.1 == 1 then t + xres else t - xres;
    SlotBeside(xres, yres, cx + p.0 + (cy + p.1) * xres);
  }

  lemma SlotBeside(xres: nat, yres: nat, s: int)
    requires xres * yres - 0x800_0000 <= s < 0x800_0000 && !(0 <= s < xres * yres)
    ensures s % 0x800_0000 >= xres * yres
  {
    assert s < 0 ==> s % 0x800_0000 == s + 0x800_0000;
  }

  lemma CornerDotClipped(xres: nat, yres: nat, cx: int, cy: int, c: Colour)
    requires xres * yres <= 0x800_0000 && 2 < xres && RowsInRange(xres, yres, cy, 1)
    requires OnScreen(xres, yres, cx, cy) && CornerDot(xres, yres, cx, cy, 1)
    ensures IsClipped(xres, yres, cx, cy, 1, c)
  {
    forall p | p in RingPoints(1) ensures LandsOnRing(xres, yres, cx, cy, 1, p) {
      CornerDotLands(xres, yres, cx, cy, p);
    }
    ClippedIffLandsOnRing(xres, yres, cx, cy, 1, c);
  }

  lemma LeftOverhang(xres: nat, yres: nat, cx: int, cy: int, r: nat, c: Colour)
    requires xres * yres <= 0x800_0000 && 2 * r < xres && OnScreen(xres, yres, cx, cy)
    requires cx < r && !CornerDot(xres, yres, cx, cy, r)
    ensures !IsClipped(xres, yres, cx, cy, r, c)
  {
    RowsBelow(cy, yres - 1, xres);
    assert (yres - 1) * xres + xres == xres * yres;
    if cy >= 1 {
      RowsBelow(1, cy, xres);
      AxisPoints(r);
      OverhangNotClipped(xres, yres, cx, cy, r, c, 0 - r, 0);
    } else {
      NextToAxis(r);
      OverhangNotClipped(xres, yres, cx, cy, r, c, 0 - r, 1);
    }
  }

  lemma RightOverhang(xres: nat, yres: nat, cx: int, cy: int, r: nat, c: Colour)
    requires xres * yres <= 0x800_0000 && 2 * r < xres && OnScreen(xres, yres, cx, cy)
    requires cx >= xres - r && !CornerDot(xres, yres, cx, cy, r)
    ensures !IsClipped(xres, yres, cx, cy, r, c)
  {
    RowsBelow(cy, yres - 1, xres);
    assert (yres - 1) * xres + xres == xres * yres;
    if cy < yres - 1 {
      RowsBelow(cy + 1, yres - 1, xres);
      assert (cy + 1) * xres == cy * xres + xres;
      AxisPoints(r);
      OverhangNotClipped(xres, yres, cx, cy, r, c, r, 0);
    } else {
      assert (cy - 1) * xres == cy * xres - xres;
      NextToAxis(r);
      OverhangNotClipped(xres, yres, cx, cy, r, c, r, -1);
    }
  }

  /**
   For a circle narrower than the screen around any pixel of the screen: the picture is the clipped ring
   if and only if the circle lies between the left and right edges, or is the dot of radius 1 in
   one of two corners.
   */
  lemma ClippedAroundPixelIff(xres: nat, yres: nat, cx: int, cy: int, r: nat, c: Colour)
    requires xres * yres <= 0x800_0000 && 2 * r < xres && RowsInRange(xres, yres, cy, r)
    requires OnScreen(xres, yres, cx, cy)
    ensures IsClipped(xres, yres, cx, cy, r, c) <==> r <= cx < xres - r || CornerDot(xres, yres, cx, cy, r)
  {
    if r <= cx < xres - r {
      forall m: seq<byte>, x, y, k | |m| == 4 * (xres * yres) && OnScreen(xres, yres, x, y) && 0 <= k < 4
        ensures ShowsClipped(m, xres, cx, cy, r, c, x, y, k)
      {
        CircleClipped(m, xres, yres, cx, cy, r, c, x, y, k);
      }
    } else if CornerDot(xres, yres, cx, cy, r) {
      CornerDotClipped(xres, yres, cx, cy, c);
    } else if cx < r {
      LeftOverhang(xres, yres, cx, cy, r, c);
    } else {
      RightOverhang(xres, yres, cx, cy, r, c);
    }
  }

  /** A rectangle on the screen: the slow fill colours exactly its pixels. */
  lemma FaceOnScreen(xres: nat, yres: nat, x0: int, y0: int, x1: int, y1: int, x: int, y: int)
    requires xres * yres <= 0x800_0000
    requires 0 <= x0 && 0 <= y0 && x1 <= xres && y1 <= yres
    requires OnScreen(xres, yres, x, y)
    ensures Slot(xres, x, y) in FaceSlots(xres, x0, y0, x1, y1) <==> x0 <= x < x1 && y0 <= y < y1
  {
    if Slot(xres, x, y) in FaceSlots(xres, x0, y0, x1, y1) {
      var x', y' :| x0 <= x' < x1 && y0 <= y' < y1 && Slot(xres, x', y') == Slot(xres, x, y);
      SlotInjective(xres, yres, x, y, x', y');
    }
  }

  // ----- the fast fill against the slow one

  /** Inside the mapping the byte address of an aligned cursor is four times the pixel number. */
  lemma CellIsSlot(xres: nat, x: int, y: int)
    requires 0 <= Cell(xres, 4 * x, y) < 0x2000_0000
    ensures Cell(xres, 4 * x, y) == 4 * Slot(xres, x, y)
  {
    ScaledCell(x, y * xres);
  }

  lemma ScaledCell(x: int, s: int)
    requires 0 <= 4 * x + s * 4 % WORD < 0x2000_0000
    ensures 4 * x + s * 4 % WORD == 4 * ((x + s) % 0x800_0000)
  {
    var q := s / 0x4000_0000;
    var t := s % 0x4000_0000;
    assert s == 0x4000_0000 * q + t;
    assert s * 4 == q * WORD + 4 * t;
    ModShift(4 * t, q);
    assert s * 4 % WORD == 4 * t;
    SlotShift(x + t, 8 * q);
    assert x + s == 8 * q * 0x800_0000 + (x + t);
  }

  lemma SlotShift(r: int, q: int)
    requires 0 <= r < 0x800_0000
    ensures (q * 0x800_0000 + r) % 0x800_0000 == r
  {
  }

  lemma StoredIsPainted(xres: nat, size: nat, y0: int, x1: int, y1: int, i: nat)
    requires size <= 0x2000_0000 && InMapping(size, xres, 0, y0, x1, y1)
    requires Stored(xres, 0, y0, x1, y1, 4 * x1, y0, i)
    ensures i / 4 in FaceSlots(xres, 0, y0, x1, y1)
  {
    var x, y :| Visits(0, x1, x) && y0 <= y < y1 && Cell(xres, x, y) <= i <= Cell(xres, x, y) + 3;
    var t := x / 4;
    assert x == 4 * t;
    CellIsSlot(xres, t, y);
    assert i / 4 == Slot(xres, t, y);
  }

  lemma PaintedIsStored(xres: nat, size: nat, y0: int, x1: int, y1: int, i: nat)
    requires size <= 0x2000_0000 && InMapping(size, xres, 0, y0, x1, y1)
    requires i / 4 in FaceSlots(xres, 0, y0, x1, y1)
    ensures Stored(xres, 0, y0, x1, y1, 4 * x1, y0, i)
  {
    var t, y :| 0 <= t < x1 && y0 <= y < y1 && Slot(xres, t, y) == i / 4;
    var x := 4 * t;
    assert Visits(0, x1, x);
    CellIsSlot(xres, t, y);
  }

  /** With the left edge at 0 the fast fill stores exactly the bytes of the slow fill's pixels. */
  lemma FillsAgreeAt(xres: nat, size: nat, y0: int, x1: int, y1: int, i: nat)
    requires size <= 0x2000_0000 && InMapping(size, xres, 0, y0, x1, y1)
    ensures Stored(xres, 0, y0, x1, y1, 4 * x1, y0, i) <==> i / 4 in FaceSlots(xres, 0, y0, x1, y1)
  {
    if Stored(xres, 0, y0, x1, y1, 4 * x1, y0, i) {
      StoredIsPainted(xres, size, y0, x1, y1, i);
    }
    if i / 4 in FaceSlots(xres, 0, y0, x1, y1) {
      PaintedIsStored(xres, size, y0, x1, y1, i);
    }
  }

  /** The fast fill refines the slow one for start_x = 0, whatever the other three arguments are. */
  lemma FillsAgree(m: seq<byte>, xres: nat, y0: int, x1: int, y1: int, c: Colour)
    requires |m| <= 0x2000_0000 && |m| % 4 == 0 && InMapping(|m|, xres, 0, y0, x1, y1)
    ensures MapPainted(m, xres, 0, y0, x1, y1, c) == Painted(m, FaceSlots(xres, 0, y0, x1, y1), c)
  {
    forall i | 0 <= i < |m|
      ensures MapPainted(m, xres, 0, y0, x1, y1, c)[i] == Painted(m, FaceSlots(xres, 0, y0, x1, y1), c)[i]
    {
      FillsAgreeAt(xres, |m|, y0, x1, y1, i);
    }
  }

  /** Rectangles on the screen that start at the left edge stay inside the mapping. */
  lemma RectangleInMapping(xres: nat, yres: nat, y0: int, x1: int, y1: int)
    requires xres * yres <= 0x800_0000 && x1 <= xres && 0 <= y0 && y1 <= yres
    ensures InMapping(4 * (xres * yres), xres, 0, y0, x1, y1)
  {
    forall x, y | Visits(0, x1, x) && y0 <= y < y1
      ensures 0 <= Cell(xres, x, y) && Cell(xres, x, y) + 3 < 4 * (xres * yres)
    {
      SlotOnScreen(xres, yres, x / 4, y);
      assert y * xres >= 0;
      assert Cell(xres, x, y) == x + y * xres * 4;
    }
  }

  /** Cursor positions of a rectangle on the screen are row-major byte numbers. */
  lemma CellOnScreen(xres: nat, yres: nat, x: int, y: int)
    requires xres * yres <= 0x800_0000 && 0 <= x < 4 * xres && 0 <= y < yres
    ensures Cell(xres, x, y) == x + 4 * (y * xres) && 0 <= y * xres && (y + 1) * xres <= xres * yres
  {
    RowsBelow(y, yres - 1, xres);
    assert (yres - 1) * xres + xres == xres * yres;
    assert (y + 1) * xres == y * xres + xres;
  }

  /** The last cursor position below end. */
  function LastVisit(x0: int, x1: int): int {
    4 * x1 - 4 + (if x0 % 4 == 0 then 0 else x0 % 4)
  }

  lemma LastVisited(x0: int, x1: int)
    requires 0 <= x0 < 4 * x1
    ensures Visits(x0, x1, LastVisit(x0, x1))
    ensures forall x :: Visits(x0, x1, x) ==> x <= LastVisit(x0, x1)
  {
    var q := x0 / 4;
    assert x0 == 4 * q + x0 % 4;
    assert LastVisit(x0, x1) - x0 == 4 * (x1 - 1 - q);
    forall x | Visits(x0, x1, x) ensures x <= LastVisit(x0, x1) {
      var t := (x - x0) / 4;
      assert x == 4 * (q + t) + x0 % 4;
    }
  }

  /**
   Exactly when the fast fill of a rectangle on the screen stays inside its mapping: it stores nothing,
   or start_x is a multiple of 4, or the rectangle leaves out the last column or the last row.
   */
  lemma StoresInMappingIff(xres: nat, yres: nat, x0: int, y0: int, x1: int, y1: int)
    requires xres * yres <= 0x800_0000 && 0 <= x0 && x1 <= xres && 0 <= y0 && y1 <= yres
    ensures InMapping(4 * (xres * yres), xres, x0, y0, x1, y1) <==>
      y0 >= y1 || x0 >= 4 * x1 || x0 % 4 == 0 || x1 < xres || y1 < yres
  {
    if y0 < y1 && x0 < 4 * x1 {
      if x0 % 4 == 0 || x1 < xres || y1 < yres {
        forall x, y | Visits(x0, x1, x) && y0 <= y < y1
          ensures 0 <= Cell(xres, x, y) && Cell(xres, x, y) + 3 < 4 * (xres * yres)
        {
          VisitInMapping(xres, yres, x0, x1, x, y);
        }
      } else {
        LastVisitOutside(xres, yres, x0);
      }
    }
  }

  lemma VisitInMapping(xres: nat, yres: nat, x0: int, x1: int, x: int, y: int)
    requires xres * yres <= 0x800_0000 && 0 <= x0 && x1 <= xres && 0 <= y < yres && Visits(x0, x1, x)
    requires x0 % 4 == 0 || x1 < xres || y + 1 < yres
    ensures 0 <= Cell(xres, x, y) && Cell(xres, x, y) + 3 < 4 * (xres * yres)
  {
    LastVisited(x0, x1);
    CellOnScreen(xres, yres, x, y);
    assert (y + 1) * xres == y * xres + xres;
    if y + 1 < yres {
      CellOnScreen(xres, yres, x, y + 1);
      assert (y + 2) * xres == (y + 1) * xres + xres;
    }
  }

  lemma LastVisitOutside(xres: nat, yres: nat, x0: int)
    requires xres * yres <= 0x800_0000 && 0 <= x0 < 4 * xres && x0 % 4 != 0 && yres > 0
    ensures Visits(x0, xres, LastVisit(x0, xres))
    ensures Cell(xres, LastVisit(x0, xres), yres - 1) + 3 >= 4 * (xres * yres)
  {
    LastVisited(x0, xres);
    CellOnScreen(xres, yres, LastVisit(x0, xres), yres - 1);
    assert (yres - 1) * xres + xres == xres * yres;
  }

  /** Byte i belongs to the bytes that the fast fill stores in row y: they are consecutive. */
  ghost predicate InRun(xres: nat, x0: int, x1: int, y: int, i: int) {
    x0 <= i - 4 * (y * xres) < 4 * x1 + x0 % 4
  }

  lemma StoredInRun(xres: nat, yres: nat, x0: int, y0: int, x1: int, y1: int, i: nat) returns (y: int)
    requires xres * yres <= 0x800_0000 && 0 <= x0 && x1 <= xres && 0 <= y0 && y1 <= yres
    requires Stored(xres, x0, y0, x1, y1, 4 * x1, y0, i)
    ensures x0 < 4 * x1 && y0 <= y < y1 && InRun(xres, x0, x1, y, i)
  {
    var x;
    x, y :| Visits(x0, x1, x) && y0 <= y < y1 && Cell(xres, x, y) <= i <= Cell(xres, x, y) + 3;
    LastVisited(x0, x1);
    CellOnScreen(xres, yres, x, y);
  }

  lemma RunStored(xres: nat, yres: nat, x0: int, y0: int, x1: int, y1: int, y: int, i: nat)
    requires xres * yres <= 0x800_0000 && 0 <= x0 < 4 * x1 && x1 <= xres && 0 <= y0 && y1 <= yres
    requires y0 <= y < y1 && InRun(xres, x0, x1, y, i)
    ensures Stored(xres, x0, y0, x1, y1, 4 * x1, y0, i)
  {
    var x := VisitBefore(x0, x1, i - 4 * (y * xres));
    CellOnScreen(xres, yres, x, y);
  }

  /** The cursor position whose four bytes hold byte b. */
  lemma VisitBefore(x0: int, x1: int, b: int) returns (x: int)
    requires 0 <= x0 <= b < 4 * x1 + x0 % 4
    ensures Visits(x0, x1, x) && x <= b <= x + 3
  {
    var q, t := x0 / 4, (b - x0) / 4;
    assert x0 == 4 * q + x0 % 4;
    assert 4 * t <= b - x0 < 4 * (x1 - q);
    x := x0 + 4 * t;
  }

  /**
   The whole picture of the fast fill of a rectangle on the screen: each of its rows becomes one run of bytes
   from start_x, unscaled, to end_x, shifted by start_x % 4 bytes; B, G, R, 0xFF repeat from the
   first byte of the run on.
   */
  lemma FastFillRuns(m: seq<byte>, xres: nat, yres: nat, x0: int, y0: int, x1: int, y1: int, c: Colour, i: nat)
    requires xres * yres <= 0x800_0000 && i < |m|
    requires 0 <= x0 && x1 <= xres && 0 <= y0 && y1 <= yres
    ensures MapPainted(m, xres, x0, y0, x1, y1, c)[i] ==
      if x0 < 4 * x1 && (exists y :: y0 <= y < y1 && InRun(xres, x0, x1, y, i))
      then (match (i - x0) % 4 case 0 => c.b case 1 => c.g case 2 => c.r case _ => 0xFF)
      else m[i]
  {
    if Stored(xres, x0, y0, x1, y1, 4 * x1, y0, i) {
      var y := StoredInRun(xres, yres, x0, y0, x1, y1, i);
    } else if y :| x0 < 4 * x1 && y0 <= y < y1 && InRun(xres, x0, x1, y, i) {
      RunStored(xres, yres, x0, y0, x1, y1, y, i);
      assert false;
    }
  }

  /** The call in main, all four coordinates 0: every pixel of the screen takes the colour. */
  lemma WholeScreen(m: seq<byte>, xres: nat, yres: nat, c: Colour, i: nat)
    requires xres * yres <= 0x800_0000 && i < |m| == 4 * (xres * yres)
    ensures MapPainted(m, xres, 0, 0, xres, yres, c)[i] == c.Channel(i % 4)
  {
    RectangleInMapping(xres, yres, 0, xres, yres);
    FillsAgree(m, xres, 0, xres, yres, c);
    var x, y := AtCovers(xres, yres, i);
    AtBounds(xres, yres, x, y, i % 4);
    FaceOnScreen(xres, yres, 0, 0, xres, yres, x, y);
  }

  /** The fast fill forgets to scale start_x: its first store misses the slow fill's rectangle. */
  lemma FirstStoreMisses(xres: nat, yres: nat, x0: int, y0: int, x1: int, y1: int) returns (i: nat)
    requires xres * yres <= 0x800_0000
    requires 0 < x0 < 4 * x1 && x1 <= xres && 0 <= y0 < y1 <= yres
    ensures i < 4 * (xres * yres) && (i - x0) % 4 == 0
    ensures Stored(xres, x0, y0, x1, y1, 4 * x1, y0, i)
    ensures i / 4 !in FaceSlots(xres, x0, y0, x1, y1)
  {
    var x := x0 / 4;
    SlotOnScreen(xres, yres, x, y0);
    assert y0 * xres >= 0;
    assert Cell(xres, x0, y0) == x0 + y0 * xres * 4;
    assert Visits(x0, x1, x0);
    i := Cell(xres, x0, y0);
    assert i / 4 == Slot(xres, x, y0);
    FaceOnScreen(xres, yres, x0, y0, x1, y1, x, y0);
  }

  /** Both fills leave the same memory, whatever it held. */
  ghost predicate FillsSame(xres: nat, size: nat, x0: int, y0: int, x1: int, y1: int, c: Colour) {
    forall m: seq<byte> | |m| == size ::
      MapPainted(m, xres, x0, y0, x1, y1, c) == Painted(m, FaceSlots(xres, x0, y0, x1, y1), c)
  }

  /**
   Exactly when the two fills are interchangeable on a rectangle of the screen: the left edge is 0,
   or there is no row, or the byte cursor starts beyond the right edge. In the last case it is beyond
   it in pixels too, so neither loop stores anything. MapPainted is about the bytes of the mapping;
   StoresInMappingIff says when there are no others.
   */
  lemma FillsAgreeIff(xres: nat, yres: nat, x0: int, y0: int, x1: int, y1: int, c: Colour)
    requires xres * yres <= 0x800_0000
    requires 0 <= x0 && x1 <= xres && 0 <= y0 && y1 <= yres
    ensures FillsSame(xres, 4 * (xres * yres), x0, y0, x1, y1, c) <==> x0 == 0 || y0 >= y1 || x0 >= 4 * x1
  {
    var size := 4 * (xres * yres);
    if x0 == 0 {
      RectangleInMapping(xres, yres, y0, x1, y1);
      forall m: seq<byte> | |m| == size
        ensures MapPainted(m, xres, x0, y0, x1, y1, c) == Painted(m, FaceSlots(xres, x0, y0, x1, y1), c)
      {
        FillsAgree(m, xres, y0, x1, y1, c);
      }
    } else if y0 >= y1 || x0 >= 4 * x1 {
      forall m: seq<byte> | |m| == size
        ensures MapPainted(m, xres, x0, y0, x1, y1, c) == Painted(m, FaceSlots(xres, x0, y0, x1, y1), c)
      {
        NothingStored(m, xres, x0, y0, x1, y1, c);
      }
    } else {
      var m := FillsDifferOn(xres, yres, x0, y0, x1, y1, c);
    }
  }

  lemma NothingStored(m: seq<byte>, xres: nat, x0: int, y0: int, x1: int, y1: int, c: Colour)
    requires 0 <= x0 && (y0 >= y1 || x0 >= 4 * x1)
    ensures MapPainted(m, xres, x0, y0, x1, y1, c) == m == Painted(m, FaceSlots(xres, x0, y0, x1, y1), c)
  {
    assert FaceSlots(xres, x0, y0, x1, y1) == {};
  }

  /** Outside those cases the fills differ on a screen that nowhere has the colour's blue. */
  lemma FillsDifferOn(xres: nat, yres: nat, x0: int, y0: int, x1: int, y1: int, c: Colour) returns (m: seq<byte>)
    requires xres * yres <= 0x800_0000
    requires 0 < x0 < 4 * x1 && x1 <= xres && 0 <= y0 < y1 <= yres
    ensures |m| == 4 * (xres * yres)
    ensures MapPainted(m, xres, x0, y0, x1, y1, c) != Painted(m, FaceSlots(xres, x0, y0, x1, y1), c)
  {
    var i := FirstStoreMisses(xres, yres, x0, y0, x1, y1);
    m := OtherThan(c, 4 * (xres * yres));
    assert MapPainted(m, xres, x0, y0, x1, y1, c)[i] == c.b;
    assert Painted(m, FaceSlots(xres, x0, y0, x1, y1), c)[i] == m[i];
  }

  /** They do differ: columns 4 to 7 of a row of 8 pixels. The fast fill colours columns 1 to 7. */
  lemma FillsDiffer(c: Colour) returns (m: seq<byte>)
    ensures |m| == 4 * (8 * 1) && InMapping(|m|, 8, 4, 0, 8, 1)
    ensures MapPainted(m, 8, 4, 0, 8, 1, c) != Painted(m, FaceSlots(8, 4, 0, 8, 1), c)
  {
    StoresInMappingIff(8, 1, 4, 0, 8, 1);
    m := FillsDifferOn(8, 1, 4, 0, 8, 1, c);
  }
}
