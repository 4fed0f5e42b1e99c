/** The shape of the plotted circle: one simple closed, watertight, one-pixel-thick ring near the true circle. */
module Ring {
  import opened Bytes
  import opened Circle

  // ----- the octant the loop walks

  /** Neighbours in the order the loop plots them: one pixel down, or one down and one to the left. */
  predicate OctantStep(p: Point, q: Point) {
    q.1 == p.1 + 1 && (q.0 == p.0 || q.0 == p.0 - 1)
  }

  /**
   o lists the pixels of a set in one octant: one for each y from y0 on, each one step from
   the one before, the last within one pixel of the diagonal, and none left out.
   */
  ghost predicate OctantOf(ring: Point -> bool, y0: int, o: seq<Point>) {
    && |o| > 0
    && (forall k :: 0 <= k < |o| ==> o[k].1 == y0 + k && o[k].0 >= o[k].1 && ring(o[k]))
    && (forall k :: 0 <= k < |o| - 1 ==> OctantStep(o[k], o[k + 1]))
    && 0 <= o[|o| - 1].0 - o[|o| - 1].1 <= 1
    && (forall p: Point :: p.0 >= p.1 >= y0 && ring(p) ==> p in o)
  }

  lemma OctantCons(ring: Point -> bool, head: Point, t: seq<Point>)
    requires OctantOf(ring, head.1 + 1, t) && OctantStep(head, t[0])
    requires head.0 >= head.1 && ring(head)
    requires forall p: Point :: p.0 >= p.1 == head.1 && ring(p) ==> p == head
    ensures OctantOf(ring, head.1, [head] + t)
  {
    var o := [head] + t;
    assert o[|o| - 1] == t[|t| - 1];
    forall k | 0 <= k < |o|
      ensures o[k].1 == head.1 + k && o[k].0 >= o[k].1 && ring(o[k])
    {
      assert k > 0 ==> o[k] == t[k - 1];
    }
    forall k | 0 <= k < |o| - 1 ensures OctantStep(o[k], o[k + 1]) {
      assert k > 0 ==> OctantStep(t[k - 1], t[k]);
    }
    forall p: Point | p.0 >= p.1 >= head.1 && ring(p)
      ensures p in o
    {
      assert p.1 > head.1 ==> p in t;
    }
  }

  ghost function RingOf(r: int): Point -> bool {
    (p: Point) => OnRing(r, p.0, p.1)
  }

  lemma OneInRow(r: int, c: Cursor, p: Point)
    requires Good(r, c) && p.0 >= p.1 == c.y && RingOf(r)(p)
    ensures p == (c.x, c.y)
  {
    RingColumnUnique(r, c.x, p.0, c.y);
  }

  /** The loop plots exactly the ring pixels of its octant, in order. */
  lemma {:induction false} OctantExact(r: int, c: Cursor)
    requires Good(r, c)
    ensures OctantOf(RingOf(r), c.y, Octant(c)) && Octant(c)[0] == (c.x, c.y)
    decreases c.x - c.y
  {
    var head, d := (c.x, c.y), Next(c);
    forall p: Point | p.0 >= p.1 == c.y && RingOf(r)(p) ensures p == head {
      OneInRow(r, c, p);
    }
    if d.x < d.y {
      LastPoint(r, c);
    } else {
      NextGood(r, c);
      OctantExact(r, d);
      OctantCons(RingOf(r), head, Octant(d));
    }
  }

  lemma LastPoint(r: int, c: Cursor)
    requires Good(r, c) && Next(c).x < Next(c).y
    ensures OctantOf(RingOf(r), c.y, Octant(c)) && Octant(c) == [(c.x, c.y)]
  {
    assert Octant(Next(c)) == [];
    ErrorBounds(r, c);
    forall p: Point | p.0 >= p.1 >= c.y && RingOf(r)(p) ensures p == (c.x, c.y) {
      if p.1 > c.y {
        ExitExhausts(r, c, p.0, p.1);
      } else {
        OneInRow(r, c, p);
      }
    }
  }

  // ----- symmetry

  function Swap(p: Point): Point {
    (p.1, p.0)
  }

  /** A quarter turn. */
  function Rot(p: Point): Point {
    (-p.1, p.0)
  }

  lemma RingSymmetric(r: int, p: Point)
    ensures OnRing(r, p.0, p.1) <==> OnRing(r, Swap(p).0, Swap(p).1)
    ensures OnRing(r, p.0, p.1) <==> OnRing(r, Rot(p).0, Rot(p).1)
  {
  }

  // ----- one closed curve around the ring

  /** 8-adjacent, or the same pixel. */
  predicate King(p: Point, q: Point) {
    Abs(p.0 - q.0) <= 1 && Abs(p.1 - q.1) <= 1
  }

  ghost predicate Chain(s: seq<Point>) {
    forall i :: 0 <= i < |s| - 1 ==> King(s[i], s[i + 1])
  }

  ghost predicate Distinct(s: seq<Point>) {
    forall i, j :: 0 <= i < j < |s| ==> s[i] != s[j]
  }

  /** Pairwise distinct pixels, each 8-adjacent to the next, and the last to the first. */
  ghost predicate SimpleCycle(s: seq<Point>) {
    |s| > 1 && Distinct(s) && Chain(s) && King(s[|s| - 1], s[0])
  }

  lemma ChainConcat(s: seq<Point>, t: seq<Point>)
    requires |s| > 0 && |t| > 0 && Chain(s) && Chain(t) && King(s[|s| - 1], t[0])
    ensures Chain(s + t)
  {
  }

  lemma DistinctConcat(s: seq<Point>, t: seq<Point>)
    requires Distinct(s) && Distinct(t) && forall p :: p in s ==> p !in t
    ensures Distinct(s + t)
  {
    forall i, j | 0 <= i < j < |s + t| ensures (s + t)[i] != (s + t)[j] {
      if i < |s| <= j {
        assert s[i] in s && t[j - |s|] in t;
      }
    }
  }

  function RotAll(s: seq<Point>): (t: seq<Point>) {
    seq(|s|, i requires 0 <= i < |s| => Rot(s[i]))
  }

  lemma RotKeeps(s: seq<Point>)
    requires Chain(s) && Distinct(s)
    ensures Chain(RotAll(s)) && Distinct(RotAll(s))
  {
    forall i | 0 <= i < |s| - 1 ensures King(RotAll(s)[i], RotAll(s)[i + 1]) {
      assert King(s[i], s[i + 1]);
    }
    forall i, j | 0 <= i < j < |s| ensures RotAll(s)[i] != RotAll(s)[j] {
      assert s[i] != s[j];
    }
  }

  lemma InRotAll(s: seq<Point>, p: Point)
    ensures p in RotAll(s) <==> (p.1, -p.0) in s
  {
    if p in RotAll(s) {
      var i :| 0 <= i < |s| && RotAll(s)[i] == p;
      assert s[i] == (p.1, -p.0);
    }
    if (p.1, -p.0) in s {
      var i :| 0 <= i < |s| && s[i] == (p.1, -p.0);
      assert RotAll(s)[i] == p;
    }
  }

  /** How many pixels the octant shares with its mirror image: 1 if it ends on the diagonal. */
  function Shared(o: seq<Point>): (d: nat)
    requires |o| > 0
    ensures d <= 1
  {
    if o[|o| - 1].0 == o[|o| - 1].1 then 1 else 0
  }

  /**
   The octant, then its mirror image in the diagonal walked backwards, without a pixel on the
   diagonal twice and without the last one, which the next quarter starts with.
   */
  function Mirrored(o: seq<Point>): (q: seq<Point>)
    requires |o| > 0 && |o| > Shared(o)
    ensures |q| == 2 * |o| - 1 - Shared(o)
    ensures forall i :: 0 <= i < |q| ==> q[i] == if i < |o| then o[i] else Swap(o[|q| - i])
  {
    var n := 2 * |o| - 1 - Shared(o);
    seq(n, i requires 0 <= i < n => if i < |o| then o[i] else Swap(o[n - i]))
  }

  /** An octant that starts off the diagonal reaches it at its last pixel or not at all. */
  lemma DiagonalLast(ring: Point -> bool, o: seq<Point>, i: int)
    requires OctantOf(ring, 0, o) && 0 <= i < |o| && o[i].0 == o[i].1
    ensures i == |o| - 1
  {
    assert i < |o| - 1 ==> OctantStep(o[i], o[i + 1]);
  }

  /** One step down after the other, to within one pixel of the diagonal. */
  ghost predicate Descends(o: seq<Point>) {
    && |o| > 0
    && (forall k :: 0 <= k < |o| - 1 ==> OctantStep(o[k], o[k + 1]))
    && 0 <= o[|o| - 1].0 - o[|o| - 1].1 <= 1
  }

  /** The octant's consecutive pixels are adjacent, and so are their mirror images, and those at the diagonal. */
  lemma OctantAdjacent(o: seq<Point>, i: int)
    requires Descends(o) && 0 <= i < |o|
    ensures i < |o| - 1 ==> King(o[i], o[i + 1]) && King(Swap(o[i + 1]), Swap(o[i]))
    ensures i == |o| - 1 ==> King(o[i], Swap(o[i]))
    ensures i == |o| - 1 && o[i].0 == o[i].1 ==> o[i] == Swap(o[i])
  {
    assert i < |o| - 1 ==> OctantStep(o[i], o[i + 1]);
  }

  lemma MirroredStep(o: seq<Point>, i: int)
    requires Descends(o) && |o| > Shared(o) && 0 <= i < |Mirrored(o)| - 1
    ensures King(Mirrored(o)[i], Mirrored(o)[i + 1])
  {
    var q, n := Mirrored(o), |o|;
    var j := |q| - i - 1;
    if i < n - 1 {
      assert q[i] == o[i] && q[i + 1] == o[i + 1];
      OctantAdjacent(o, i);
    } else if i == n - 1 {
      assert q[i] == o[n - 1] && q[i + 1] == Swap(o[j]) && j == n - 1 - Shared(o);
      OctantAdjacent(o, n - 1);
      OctantAdjacent(o, j);
    } else {
      assert q[i] == Swap(o[j + 1]) && q[i + 1] == Swap(o[j]);
      OctantAdjacent(o, j);
    }
  }

  lemma MirroredChain(ring: Point -> bool, o: seq<Point>)
    requires OctantOf(ring, 0, o) && |o| > Shared(o)
    ensures var q := Mirrored(o); Chain(q) && q[0] == o[0] && King(q[|q| - 1], Swap(o[0]))
  {
    forall i | 0 <= i < |Mirrored(o)| - 1 ensures King(Mirrored(o)[i], Mirrored(o)[i + 1]) {
      MirroredStep(o, i);
    }
    OctantAdjacent(o, 0);
    OctantAdjacent(o, |o| - 1);
  }

  /** Two pixels of the quarter: in different rows, in different columns, or on both sides of the diagonal. */
  lemma MirroredApart(o: seq<Point>, i: int, j: int)
    requires |o| > 0 && |o| > Shared(o) && 0 <= i < j < |Mirrored(o)|
    requires forall k :: 0 <= k < |o| ==> o[k].1 == k && o[k].0 >= o[k].1
    requires forall k :: 0 <= k < |o| && o[k].0 == o[k].1 ==> k == |o| - 1
    ensures Mirrored(o)[i] != Mirrored(o)[j]
  {
    var q, n := Mirrored(o), |o|;
    if j < n {
      assert q[i] == o[i] && q[j] == o[j];
    } else if i >= n {
      assert q[i] == Swap(o[|q| - i]) && q[j] == Swap(o[|q| - j]);
    } else {
      assert q[i] == o[i] && q[j] == Swap(o[|q| - j]);
    }
  }

  lemma MirroredDistinct(ring: Point -> bool, o: seq<Point>)
    requires OctantOf(ring, 0, o) && |o| > Shared(o)
    ensures Distinct(Mirrored(o))
  {
    forall k | 0 <= k < |o| && o[k].0 == o[k].1 ensures k == |o| - 1 {
      DiagonalLast(ring, o, k);
    }
    forall i, j | 0 <= i < j < |Mirrored(o)| ensures Mirrored(o)[i] != Mirrored(o)[j] {
      MirroredApart(o, i, j);
    }
  }

  lemma MirroredHas(ring: Point -> bool, o: seq<Point>, p: Point)
    requires OctantOf(ring, 0, o) && |o| > Shared(o)
    requires p.0 > 0 && p.1 >= 0 && ring(p) && ring(Swap(p))
    ensures p in Mirrored(o)
  {
    var q, n := Mirrored(o), |o|;
    if p.0 >= p.1 {
      var k :| 0 <= k < n && o[k] == p;
      assert q[k] == p;
    } else {
      var k :| 0 <= k < n && o[k] == Swap(p);
      assert k == p.0;
      assert q[|q| - k] == p;
    }
  }

  lemma MirroredOnly(ring: Point -> bool, o: seq<Point>, i: int)
    requires OctantOf(ring, 0, o) && |o| > Shared(o) && o[0].0 > 0 && 0 <= i < |Mirrored(o)|
    ensures var p := Mirrored(o)[i];
      p.0 > 0 && p.1 >= 0 && (ring(p) || ring(Swap(p)))
  {
    var k := if i < |o| then i else |Mirrored(o)| - i;
    assert ring(o[k]) && o[k].1 == k && o[k].0 >= k;
  }

  /** The part of a symmetric set in the first quadrant, with the positive x-axis and without the y-axis. */
  lemma MirroredExact(ring: Point -> bool, o: seq<Point>, p: Point)
    requires OctantOf(ring, 0, o) && |o| > Shared(o) && o[0].0 > 0 && (ring(p) <==> ring(Swap(p)))
    ensures p in Mirrored(o) <==> p.0 > 0 && p.1 >= 0 && ring(p)
  {
    if p.0 > 0 && p.1 >= 0 && ring(p) {
      MirroredHas(ring, o, p);
    }
    if p in Mirrored(o) {
      var i :| 0 <= i < |Mirrored(o)| && Mirrored(o)[i] == p;
      MirroredOnly(ring, o, i);
    }
  }

  /** The octant of a ring is longer than its part on the diagonal: it starts at (r, 0). */
  lemma RingOctant(r: int) returns (o: seq<Point>)
    requires r >= 1
    ensures o == Octant(Start(r)) && OctantOf(RingOf(r), 0, o) && o[0] == (r, 0) && |o| > Shared(o)
  {
    StartGood(r);
    OctantExact(r, Start(r));
    o := Octant(Start(r));
  }

  lemma OctantLongEnough(r: int)
    ensures r >= 1 ==> |Octant(Start(r))| > 0 && |Octant(Start(r))| > Shared(Octant(Start(r)))
  {
    if r >= 1 {
      var o := RingOctant(r);
    }
  }

  function Quarter(r: int): seq<Point>
    requires r >= 1
  {
    OctantLongEnough(r);
    Mirrored(Octant(Start(r)))
  }

  lemma QuarterCurve(r: int)
    requires r >= 1
    ensures var q := Quarter(r);
      |q| > 0 && Chain(q) && Distinct(q) && q[0] == (r, 0) && King(q[|q| - 1], (0, r))
  {
    var o := RingOctant(r);
    MirroredChain(RingOf(r), o);
    MirroredDistinct(RingOf(r), o);
  }

  lemma QuarterExact(r: int, p: Point)
    requires r >= 1
    ensures p in Quarter(r) <==> p.0 > 0 && p.1 >= 0 && OnRing(r, p.0, p.1)
  {
    var o := RingOctant(r);
    RingSymmetric(r, p);
    MirroredExact(RingOf(r), o, p);
  }

  function Half(r: int): seq<Point>
    requires r >= 1
  {
    Quarter(r) + RotAll(Quarter(r))
  }

  lemma HalfExact(r: int, p: Point)
    requires r >= 1
    ensures p in Half(r) <==> (p.1 > 0 || (p.1 == 0 && p.0 > 0)) && OnRing(r, p.0, p.1)
  {
    var p1 := (p.1, -p.0);
    InRotAll(Quarter(r), p);
    QuarterExact(r, p);
    QuarterExact(r, p1);
    RingSymmetric(r, p1);
  }

  lemma HalfCurve(r: int)
    requires r >= 1
    ensures var h := Half(r);
      |h| > 0 && Chain(h) && Distinct(h) && h[0] == (r, 0) && King(h[|h| - 1], (-r, 0))
  {
    var q := Quarter(r);
    QuarterCurve(r);
    RotKeeps(q);
    ChainConcat(q, RotAll(q));
    forall p | p in q ensures p !in RotAll(q) {
      InRotAll(q, p);
      QuarterExact(r, p);
      QuarterExact(r, (p.1, -p.0));
    }
    DistinctConcat(q, RotAll(q));
  }

  /** The other half: turned by two right angles. */
  function OtherHalf(r: int): seq<Point>
    requires r >= 1
  {
    RotAll(RotAll(Half(r)))
  }

  lemma OtherHalfExact(r: int, p: Point)
    requires r >= 1
    ensures p in OtherHalf(r) <==> (p.1 < 0 || (p.1 == 0 && p.0 < 0)) && OnRing(r, p.0, p.1)
  {
    InRotAll(RotAll(Half(r)), p);
    InRotAll(Half(r), (p.1, -p.0));
    HalfExact(r, (-p.0, -p.1));
    RingSymmetric(r, p);
    RingSymmetric(r, Rot(p));
  }

  lemma OtherHalfCurve(r: int)
    requires r >= 1
    ensures var t := OtherHalf(r);
      |t| > 0 && Chain(t) && Distinct(t) && t[0] == (-r, 0) && King(t[|t| - 1], (r, 0))
  {
    HalfCurve(r);
    RotKeeps(Half(r));
    RotKeeps(RotAll(Half(r)));
  }

  function RingCycle(r: int): seq<Point>
    requires r >= 1
  {
    Half(r) + OtherHalf(r)
  }

  /** The plotted pixels form one simple closed 8-connected curve, each pixel once. */
  lemma RingIsSimpleCycle(r: int)
    requires r >= 1
    ensures SimpleCycle(RingCycle(r))
    ensures forall p :: p in RingCycle(r) <==> OnRing(r, p.0, p.1)
  {
    HalfCurve(r);
    OtherHalfCurve(r);
    ChainConcat(Half(r), OtherHalf(r));
    forall p | p in Half(r) ensures p !in OtherHalf(r) {
      HalfExact(r, p);
      OtherHalfExact(r, p);
    }
    DistinctConcat(Half(r), OtherHalf(r));
    forall p ensures p in RingCycle(r) <==> OnRing(r, p.0, p.1) {
      RingCycleExact(r, p);
    }
  }

  lemma RingCycleExact(r: int, p: Point)
    requires r >= 1
    ensures p in RingCycle(r) <==> OnRing(r, p.0, p.1)
  {
    HalfExact(r, p);
    OtherHalfExact(r, p);
    if OnRing(r, p.0, p.1) && p == (0, 0) {
      DiagonalStart(r, 0);
    }
  }

  // ----- the neighbours of a ring pixel

  /** a and b are the only two pixels of a set next to p. */
  ghost predicate NeighboursIn(ring: Point -> bool, p: Point, a: Point, b: Point) {
    && a != b && a != p && b != p
    && King(p, a) && King(p, b) && ring(a) && ring(b)
    && forall q: Point :: King(p, q) && q != p && ring(q) ==> q == a || q == b
  }

  ghost predicate Neighbours(r: int, p: Point, a: Point, b: Point) {
    NeighboursIn(RingOf(r), p, a, b)
  }

  lemma OctantPixel(r: int, x: int, y: int)
    requires r >= 1 && x >= y >= 0
    ensures OnRing(r, x, y) <==> (x - 1) * (x - 1) + y * y <= r * r - r < x * x + y * y
  {
  }

  /** In the row before, the ring pixel is straight above or one further out, and not both. */
  lemma RowBefore(r: int, x: int, y: int) returns (a: Point)
    requires r >= 1 && x >= y >= 1 && OnRing(r, x, y)
    ensures (a == (x, y - 1) || a == (x + 1, y - 1)) && OnRing(r, a.0, a.1)
  {
    Squares(y - 1, y);
    assert (x + 1) * (x + 1) + (y - 1) * (y - 1) == x * x + y * y + 2 * (x - y) + 2;
    OctantPixel(r, x, y);
    OctantPixel(r, x, y - 1);
    OctantPixel(r, x + 1, y - 1);
    if r * r - r < x * x + (y - 1) * (y - 1) {
      a := (x, y - 1);
    } else {
      a := (x + 1, y - 1);
    }
  }

  /** In the row after, it is straight below or one further in, as long as that is still in the octant. */
  lemma RowAfter(r: int, x: int, y: int) returns (a: Point)
    requires r >= 1 && x - 1 >= y + 1 >= 1 && OnRing(r, x, y)
    ensures (a == (x, y + 1) || a == (x - 1, y + 1)) && OnRing(r, a.0, a.1)
  {
    if (x - 1) * (x - 1) + (y + 1) * (y + 1) <= r * r - r {
      StraightStep(r, x, y);
      a := (x, y + 1);
    } else {
      DiagonalStep(r, x, y);
      a := (x - 1, y + 1);
    }
  }

  /** One pixel to a row of the octant, also for rows below the axis. */
  lemma OneToARow(r: int, a: Point, q: Point)
    requires r >= 1 && a.1 == q.1 && a.0 >= Abs(a.1) && q.0 >= Abs(q.1)
    requires OnRing(r, a.0, a.1) && OnRing(r, q.0, q.1)
    ensures a == q
  {
    Ordered(r, a.0, a.1);
    Ordered(r, q.0, q.1);
    RingColumnUnique(r, a.0, q.0, Abs(a.1));
  }

  /** Away from the diagonal: the neighbours are the pixels of the rows before and after. */
  lemma NeighboursInside(r: int, x: int, y: int) returns (a: Point, b: Point)
    requires r >= 1 && y >= 0 && x >= y + 2 && OnRing(r, x, y)
    ensures Neighbours(r, (x, y), a, b)
  {
    b := RowAfter(r, x, y);
    if y == 0 {
      a := (b.0, -1);
      Ordered(r, a.0, a.1);
    } else {
      a := RowBefore(r, x, y);
    }
    forall q: Point | King((x, y), q) && q != (x, y) && OnRing(r, q.0, q.1) ensures q == a || q == b {
      OneToARow(r, if q.1 == y then (x, y) else if q.1 > y then b else a, q);
    }
  }

  /** The pixels around the diagonal that are not on the ring. */
  lemma NearDiagonal(r: int, x: int)
    requires r >= 1 && x >= 1
    ensures OnRing(r, x, x - 1) ==> !OnRing(r, x, x) && !OnRing(r, x + 1, x)
    ensures OnRing(r, x, x) ==>
      !OnRing(r, x, x - 1) && !OnRing(r, x - 1, x - 1) && !OnRing(r, x + 1, x) && !OnRing(r, x + 1, x + 1)
  {
    assert (x - 1) * (x - 1) == x * x - 2 * x + 1;
    assert (x + 1) * (x + 1) == x * x + 2 * x + 1;
  }

  lemma AcrossDiagonal(r: int, x: int)
    requires r >= 1 && x >= 1 && OnRing(r, x, x)
    ensures OnRing(r, x + 1, x - 1)
  {
    assert (x - 1) * (x - 1) == x * x - 2 * x + 1;
    assert (x + 1) * (x + 1) == x * x + 2 * x + 1;
  }

  /** One off the diagonal: a neighbour in the row before, and the mirror image in the diagonal. */
  lemma NeighboursBesideDiagonal(r: int, x: int) returns (a: Point, b: Point)
    requires r >= 1 && x >= 1 && OnRing(r, x, x - 1)
    ensures Neighbours(r, (x, x - 1), a, b)
  {
    var p := (x, x - 1);
    NearDiagonal(r, x);
    b := Swap(p);
    RingSymmetric(r, p);
    if x == 1 {
      a := (0, -1);
      Ordered(r, 0, -1);
      Ordered(r, 0, 1);
    } else {
      a := RowBefore(r, x, x - 1);
    }
    forall q: Point | King(p, q) && q != p && OnRing(r, q.0, q.1) ensures q == a || q == b {
      BesideDiagonal(r, x, a, q);
    }
  }

  lemma BesideDiagonal(r: int, x: int, a: Point, q: Point)
    requires r >= 1 && x >= 1 && OnRing(r, x, x - 1) && OnRing(r, q.0, q.1)
    requires if x == 1 then a == (0, -1) else a.1 == x - 2 && a.0 >= x && OnRing(r, a.0, a.1)
    requires King((x, x - 1), q) && q != (x, x - 1)
    ensures q == a || q == (x - 1, x)
  {
    NearDiagonal(r, x);
    if q.1 == x {
      Ordered(r, q.0, q.1);
    } else if q.1 == x - 1 {
      if q.0 == x - 1 {
        Ordered(r, q.0, q.1);
        OneToARow(r, (x, x - 1), (x - 1, x - 1));
      } else {
        OneToARow(r, (x, x - 1), q);
      }
    } else if x > 1 {
      OneToARow(r, a, q);
    } else {
      RadiusOne(r, q);
    }
  }

  /** Only the circle of radius 1 passes through (1, 0), and it has four pixels. */
  lemma RadiusOne(r: int, q: Point)
    requires r >= 1 && OnRing(r, 1, 0) && OnRing(r, q.0, q.1)
    ensures Abs(q.0) + Abs(q.1) == 1
  {
    assert r * r - r == r * (r - 1);
    if r >= 2 {
      MulAtLeast(r - 1, r);
      assert false;
    }
    RingPixelOne(Max(Abs(q.0), Abs(q.1)), Min(Abs(q.0), Abs(q.1)));
  }

  lemma RingPixelOne(M: int, m: int)
    requires M >= m >= 0 && (M - 1) * (M - 1) + m * m <= 0 < M * M + m * m
    ensures M == 1 && m == 0
  {
    if m >= 1 {
      Squares(1, m);
    }
    if M >= 2 {
      Squares(1, M - 1);
    }
  }

  /** On the diagonal: the two pixels across it. */
  lemma NeighboursOnDiagonal(r: int, x: int) returns (a: Point, b: Point)
    requires r >= 1 && x >= 1 && OnRing(r, x, x)
    ensures Neighbours(r, (x, x), a, b)
  {
    AcrossDiagonal(r, x);
    a, b := (x + 1, x - 1), (x - 1, x + 1);
    RingSymmetric(r, a);
    forall q: Point | King((x, x), q) && q != (x, x) && OnRing(r, q.0, q.1) ensures q == a || q == b {
      OnDiagonal(r, x, q);
    }
  }

  lemma OnDiagonal(r: int, x: int, q: Point)
    requires r >= 1 && x >= 1 && OnRing(r, x, x)
    requires King((x, x), q) && q != (x, x) && OnRing(r, q.0, q.1)
    ensures q == (x + 1, x - 1) || q == (x - 1, x + 1)
  {
    NearDiagonal(r, x);
    RingSymmetric(r, (x, x - 1));
    RingSymmetric(r, (x + 1, x));
  }

  lemma DiagonalStart(r: int, x: int)
    requires r >= 1 && x >= 0 && OnRing(r, x, x)
    ensures x >= 1
  {
    assert r * (r - 1) >= 0;
  }

  function FlipX(p: Point): Point {
    (-p.0, p.1)
  }

  function FlipY(p: Point): Point {
    (p.0, -p.1)
  }

  lemma FlipsKeepRing(r: int, p: Point)
    ensures OnRing(r, p.0, p.1) <==> OnRing(r, FlipX(p).0, FlipX(p).1)
    ensures OnRing(r, p.0, p.1) <==> OnRing(r, FlipY(p).0, FlipY(p).1)
  {
  }

  lemma NeighboursMapped(ring: Point -> bool, f: Point -> Point, p: Point, a: Point, b: Point)
    requires forall q :: ring(q) <==> ring(f(q))
    requires forall q :: f(f(q)) == q
    requires forall q, q' :: King(q, q') ==> King(f(q), f(q'))
    requires NeighboursIn(ring, p, a, b)
    ensures NeighboursIn(ring, f(p), f(a), f(b))
  {
    assert f(f(a)) == a && f(f(b)) == b && f(f(p)) == p;
    forall q: Point | King(f(p), q) && q != f(p) && ring(q) ensures q == f(a) || q == f(b) {
      assert King(f(f(p)), f(q));
    }
  }

  lemma NeighboursFlipX(r: int, p: Point, a: Point, b: Point)
    requires Neighbours(r, p, a, b)
    ensures Neighbours(r, FlipX(p), FlipX(a), FlipX(b))
  {
    forall q ensures RingOf(r)(q) <==> RingOf(r)(FlipX(q)) {
      FlipsKeepRing(r, q);
    }
    NeighboursMapped(RingOf(r), FlipX, p, a, b);
  }

  lemma NeighboursFlipY(r: int, p: Point, a: Point, b: Point)
    requires Neighbours(r, p, a, b)
    ensures Neighbours(r, FlipY(p), FlipY(a), FlipY(b))
  {
    forall q ensures RingOf(r)(q) <==> RingOf(r)(FlipY(q)) {
      FlipsKeepRing(r, q);
    }
    NeighboursMapped(RingOf(r), FlipY, p, a, b);
  }

  lemma NeighboursSwap(r: int, p: Point, a: Point, b: Point)
    requires Neighbours(r, p, a, b)
    ensures Neighbours(r, Swap(p), Swap(a), Swap(b))
  {
    forall q ensures RingOf(r)(q) <==> RingOf(r)(Swap(q)) {
      RingSymmetric(r, q);
    }
    NeighboursMapped(RingOf(r), Swap, p, a, b);
  }

  /** Every ring pixel has exactly two neighbours on the ring: the curve does not touch itself. */
  lemma TwoNeighbours(r: int, p: Point) returns (a: Point, b: Point)
    requires r >= 1 && OnRing(r, p.0, p.1)
    ensures Neighbours(r, p, a, b)
    decreases p.0 < 0, p.1 < 0, p.0 < p.1
  {
    FlipsKeepRing(r, p);
    RingSymmetric(r, p);
    if p.0 < 0 {
      var a', b' := TwoNeighbours(r, FlipX(p));
      a, b := FlipX(a'), FlipX(b');
      NeighboursFlipX(r, FlipX(p), a', b');
    } else if p.1 < 0 {
      var a', b' := TwoNeighbours(r, FlipY(p));
      a, b := FlipY(a'), FlipY(b');
      NeighboursFlipY(r, FlipY(p), a', b');
    } else if p.0 < p.1 {
      var a', b' := TwoNeighbours(r, Swap(p));
      a, b := Swap(a'), Swap(b');
      NeighboursSwap(r, Swap(p), a', b');
    } else {
      a, b := NeighboursInOctant(r, p.0, p.1);
    }
  }

  lemma NeighboursInOctant(r: int, x: int, y: int) returns (a: Point, b: Point)
    requires r >= 1 && x >= y >= 0 && OnRing(r, x, y)
    ensures Neighbours(r, (x, y), a, b)
  {
    if x >= y + 2 {
      a, b := NeighboursInside(r, x, y);
    } else if x == y + 1 {
      a, b := NeighboursBesideDiagonal(r, x);
    } else {
      DiagonalStart(r, x);
      a, b := NeighboursOnDiagonal(r, x);
    }
  }

  // ----- closeness to the true circle

  /** Every plotted pixel lies within half a pixel of the circle of radius r. */
  lemma HalfPixel(r: int, u: int, v: int)
    requires r >= 1 && OnRing(r, u, v)
    ensures r * r - r + 1 <= u * u + v * v <= r * r + r - 1
    ensures (2 * r - 1) * (2 * r - 1) < 4 * (u * u + v * v) < (2 * r + 1) * (2 * r + 1)
  {
    var M, m := Max(Abs(u), Abs(v)), Min(Abs(u), Abs(v));
    assert u * u + v * v == M * M + m * m by { Ordered(r, u, v); }
    HalfPixelOrdered(r * r - r, r, M, m);
    HalfSquares(r);
  }

  lemma HalfSquares(r: int)
    ensures (2 * r - 1) * (2 * r - 1) == 4 * (r * r - r) + 1
    ensures (2 * r + 1) * (2 * r + 1) == 4 * (r * r + r) + 1
  {
  }

  lemma HalfPixelOrdered(R: int, r: int, M: int, m: int)
    requires r >= 1 && R == r * r - r && M >= 0
    requires (M - 1) * (M - 1) + m * m <= R < M * M + m * m
    ensures R + 1 <= M * M + m * m <= R + 2 * r - 1
  {
    assert (M - 1) * (M - 1) == M * M - 2 * M + 1;
    if M > r {
      Squares(r, M - 1);
      assert false;
    }
  }

  // ----- the ring separates inside from outside

  ghost predicate Outside(r: int, u: int, v: int) {
    !Inside(r, u, v) && !OnRing(r, u, v)
  }

  /** 4-adjacent. */
  predicate Rook(p: Point, q: Point) {
    Abs(p.0 - q.0) + Abs(p.1 - q.1) == 1
  }

  /** Ordered coordinates carry every question about a pixel. */
  lemma Ordered(r: int, u: int, v: int)
    ensures var M, m := Max(Abs(u), Abs(v)), Min(Abs(u), Abs(v));
      && u * u + v * v == M * M + m * m
      && (Inside(r, u, v) <==> Inside(r, M, m))
      && (OnRing(r, u, v) <==> OnRing(r, M, m))
  {
    assert u * u == Abs(u) * Abs(u) && v * v == Abs(v) * Abs(v);
  }

  /** One coordinate grows by one: a pixel inside the ring cannot jump over it. */
  lemma NoLeapOutward(r: int, a: int, b: int)
    requires r >= 1 && a >= 0 && b >= 0
    requires Inside(r, a, b)
    ensures Inside(r, a + 1, b) || OnRing(r, a + 1, b)
  {
    assert (a + 1) * (a + 1) == a * a + 2 * a + 1;
    if a + 1 < b {
      assert (b - 1) * (b - 1) == b * b - 2 * b + 1;
    }
  }

  lemma NoLeap(r: int, p: Point, q: Point)
    requires r >= 1 && Rook(p, q)
    requires Inside(r, p.0, p.1)
    ensures Inside(r, q.0, q.1) || OnRing(r, q.0, q.1)
  {
    var a, b, c, d := Abs(p.0), Abs(p.1), Abs(q.0), Abs(q.1);
    Ordered(r, p.0, p.1);
    Ordered(r, q.0, q.1);
    Ordered(r, a, b);
    Ordered(r, b, a);
    Ordered(r, c, d);
    Ordered(r, d, c);
    if c == a + 1 && d == b {
      NoLeapOutward(r, a, b);
    } else if d == b + 1 && c == a {
      NoLeapOutward(r, b, a);
    } else if a == c + 1 && d == b {
      Squares(c, a);
    } else {
      assert c == a && b == d + 1;
      Squares(d, b);
    }
  }

  ghost predicate RookPath(s: seq<Point>) {
    forall i :: 0 <= i < |s| - 1 ==> Rook(s[i], s[i + 1])
  }

  /** Watertight: every 4-connected path that leaves the disc meets a plotted pixel. */
  lemma {:induction false} Watertight(r: int, s: seq<Point>)
    requires r >= 1 && |s| > 0 && RookPath(s)
    requires Inside(r, s[0].0, s[0].1) && !Inside(r, s[|s| - 1].0, s[|s| - 1].1)
    ensures exists i :: 0 <= i < |s| && OnRing(r, s[i].0, s[i].1)
  {
    NoLeap(r, s[0], s[1]);
    if OnRing(r, s[1].0, s[1].1) {
    } else {
      var t := s[1..];
      assert forall i :: 0 <= i < |t| - 1 ==> Rook(t[i], t[i + 1]) by {
        forall i | 0 <= i < |t| - 1 ensures Rook(t[i], t[i + 1]) {
          assert Rook(s[i + 1], s[i + 2]);
        }
      }
      Watertight(r, t);
      var i :| 0 <= i < |t| && OnRing(r, t[i].0, t[i].1);
      assert OnRing(r, s[i + 1].0, s[i + 1].1);
    }
  }

  /** The step from a pixel towards and away from the centre along its longer coordinate. */
  function Along(p: Point, d: int): Point {
    if Abs(p.0) >= Abs(p.1) then (if p.0 >= 0 then p.0 + d else p.0 - d, p.1)
    else (p.0, if p.1 >= 0 then p.1 + d else p.1 - d)
  }

  /** One pixel thick: through every plotted pixel runs a path from inside to outside that meets no other. */
  lemma OnePixelThick(r: int, p: Point)
    requires r >= 1 && OnRing(r, p.0, p.1)
    ensures Rook(Along(p, -1), p) && Rook(p, Along(p, 1))
    ensures Inside(r, Along(p, -1).0, Along(p, -1).1)
    ensures Outside(r, Along(p, 1).0, Along(p, 1).1)
  {
    var M, m := Max(Abs(p.0), Abs(p.1)), Min(Abs(p.0), Abs(p.1));
    LongerPositive(r, M, m);
    var i, o := Along(p, -1), Along(p, 1);
    assert Max(Abs(o.0), Abs(o.1)) == M + 1 && Min(Abs(o.0), Abs(o.1)) == m;
    assert {Abs(i.0), Abs(i.1)} == {M - 1, m};
    Ordered(r, o.0, o.1);
    Ordered(r, i.0, i.1);
    ThickOrdered(r, M, m);
  }

  lemma LongerPositive(r: int, M: int, m: int)
    requires r >= 1 && M >= m >= 0 && OnRing(r, M, m)
    ensures M >= 1
  {
  }

  lemma ThickOrdered(r: int, M: int, m: int)
    requires r >= 1 && M >= m >= 0 && OnRing(r, M, m)
    ensures Inside(r, M - 1, m) && Inside(r, m, M - 1) && Outside(r, M + 1, m)
  {
    assert (M + 1) * (M + 1) == M * M + 2 * M + 1;
  }
}
