/** The integer midpoint circle: what the loop of drawcircle plots, and the shape of that set. */
module Circle {
  import opened Bytes

  type Point = (int, int)

  /**
   The pixels of a circle of radius r around the origin, described without the loop.
   For r >= 1 these are the pixels just outside the disc u^2 + v^2 <= r^2 - r,
   reached from it by one step along the longer coordinate.
   */
  predicate OnRing(r: int, u: int, v: int) {
    var M, m := Max(Abs(u), Abs(v)), Min(Abs(u), Abs(v));
    if r <= 0 then r == 0 && M == 0
    else (M - 1) * (M - 1) + m * m <= r * r - r < M * M + m * m
  }

  /** The pixels enclosed by the ring. */
  predicate Inside(r: int, u: int, v: int) {
    u * u + v * v <= r * r - r
  }

  // ----- the loop state and its invariant

  /** The three integers the loop updates: x, y and radiusError. */
  datatype Cursor = Cursor(x: int, y: int, e: int)

  function Start(r: int): Cursor {
    Cursor(r, 0, 1 - r)
  }

  function Next(c: Cursor): Cursor {
    if c.e < 0 then Cursor(c.x, c.y + 1, c.e + 2 * (c.y + 1) + 1)
    else Cursor(c.x - 1, c.y + 1, c.e + 2 * (c.y + 1 - (c.x - 1) + 1))
  }

  /** The points (x, y) at the successive heads of the loop, in order. */
  function Octant(c: Cursor): seq<Point>
    decreases c.x - c.y + 1
  {
    if c.x < c.y then [] else [(c.x, c.y)] + Octant(Next(c))
  }

  /** radiusError measures the pixel diagonally below (x, y) against the disc. */
  ghost predicate ErrorTerm(r: int, c: Cursor) {
    c.e == (c.x - 1) * (c.x - 1) + (c.y + 1) * (c.y + 1) - r * r + r - 1
  }

  ghost predicate Good(r: int, c: Cursor) {
    && r >= 1
    && c.x >= c.y >= 0
    && ErrorTerm(r, c)
    && OnRing(r, c.x, c.y)
  }

  /** The error term is exact at every loop head, the last one included. */
  lemma NextErrorTerm(r: int, c: Cursor)
    requires ErrorTerm(r, c)
    ensures ErrorTerm(r, Next(c))
  {
    var x, y := c.x, c.y;
    assert (y + 2) * (y + 2) == (y + 1) * (y + 1) + 2 * (y + 1) + 1;
    assert (x - 2) * (x - 2) == (x - 1) * (x - 1) - 2 * (x - 1) + 1;
  }

  lemma StartGood(r: int)
    requires r >= 1
    ensures Good(r, Start(r))
  {
    assert (r - 1) * (r - 1) == r * r - 2 * r + 1;
  }

  predicate FitsInt(v: int) {
    -0x8000_0000 <= v < 0x8000_0000
  }

  /** Every sum one iteration computes is a 32-bit int. */
  predicate NoOverflow(c: Cursor) {
    && FitsInt(c.e) && FitsInt(c.y + 1) && FitsInt(c.x - 1)
    && FitsInt(2 * (c.y + 1) + 1) && FitsInt(c.e + 2 * (c.y + 1) + 1)
    && FitsInt(2 * (c.y + 1 - (c.x - 1) + 1)) && FitsInt(c.e + 2 * (c.y + 1 - (c.x - 1) + 1))
  }

  /** The error term stays small, so no sum of the loop overflows for a radius below 2^29. */
  lemma ErrorBounds(r: int, c: Cursor)
    requires Good(r, c)
    ensures 2 * (c.y - c.x) + 2 <= c.e <= 2 * c.y
    ensures 1 <= c.x <= r
    ensures r < 0x2000_0000 ==> NoOverflow(c)
  {
    var x, y := c.x, c.y;
    assert (x - 1) * (x - 1) == x * x - 2 * x + 1;
    assert (y + 1) * (y + 1) == y * y + 2 * y + 1;
    if x > r {
      Squares(r, x - 1);
    }
  }

  /** A straight step keeps the ring condition whatever the guard says. */
  lemma StraightStep(r: int, x: int, y: int)
    requires r >= 1 && x >= y + 1 >= 1
    requires OnRing(r, x, y)
    requires (x - 1) * (x - 1) + (y + 1) * (y + 1) <= r * r - r
    ensures OnRing(r, x, y + 1)
  {
    Squares(y, y + 1);
  }

  /** A diagonal step keeps it because the guard still holds after the step. */
  lemma DiagonalStep(r: int, x: int, y: int)
    requires r >= 1 && x - 1 >= y + 1 >= 1
    requires OnRing(r, x, y)
    requires r * r - r < (x - 1) * (x - 1) + (y + 1) * (y + 1)
    ensures OnRing(r, x - 1, y + 1)
  {
    assert (x - 2) * (x - 2) == (x - 1) * (x - 1) - 2 * x + 3;
    assert (y + 1) * (y + 1) == y * y + 2 * y + 1;
  }

  /** Every plotted point is on the ring. */
  lemma NextGood(r: int, c: Cursor)
    requires Good(r, c) && Next(c).x >= Next(c).y
    ensures Good(r, Next(c))
  {
    NextErrorTerm(r, c);
    if c.e < 0 {
      StraightStep(r, c.x, c.y);
    } else {
      DiagonalStep(r, c.x, c.y);
    }
  }

  /** For a given shorter coordinate at most one longer coordinate is on the ring. */
  lemma RingColumnUnique(r: int, M: int, M': int, m: int)
    requires r >= 1 && M >= m >= 0 && M' >= m
    requires OnRing(r, M, m) && OnRing(r, M', m)
    ensures M == M'
  {
    if M < M' {
      Squares(M, M' - 1);
    } else if M' < M {
      Squares(M', M - 1);
    }
  }

  lemma Squares(a: int, b: int)
    requires 0 <= a <= b
    ensures a * a <= b * b
  {
    assert b * b - a * a == (b - a) * (b + a);
  }

  /** When the loop stops, no ring pixel of the octant is left to plot. */
  lemma ExitExhausts(r: int, c: Cursor, M: int, m: int)
    requires Good(r, c) && Next(c).x < Next(c).y
    requires M >= m > c.y
    ensures !OnRing(r, M, m)
    ensures c.x - c.y <= 1
  {
    ErrorBounds(r, c);
    var y := c.y;
    assert c.e >= 0;
    assert (y + 1) * (y + 1) == y * y + 2 * y + 1;
    Squares(y, M - 1);
    Squares(y + 1, m);
  }
}
