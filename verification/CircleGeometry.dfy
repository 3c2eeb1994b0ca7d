/** The pixels of circles and discs, defined without reference to any drawing loop, and the
    arithmetic of the midpoint error term. */
module CircleGeometry {
  import opened MachineInts
  import opened Raster

  /** b is the integer nearest to the square root of n. */
  predicate Nearest(n: int, b: int) {
    n <= b * (b + 1) && (b == 0 || b * (b - 1) < n)
  }

  /** (dx, dy) is at most half a pixel outside the circle of radius r about the origin, measured
      along the axis in which it lies farther away. */
  predicate InDisc(r: int, dx: int, dy: int) {
    var a, b := Min(Abs(dx), Abs(dy)), Max(Abs(dx), Abs(dy));
    b == 0 || b * (b - 1) < r * r - a * a
  }

  /** Along its longer coordinate, (dx, dy) is the lattice point nearest to the circle. */
  predicate OnCircle(r: int, dx: int, dy: int) {
    Nearest(r * r - Min(Abs(dx), Abs(dy)) * Min(Abs(dx), Abs(dy)), Max(Abs(dx), Abs(dy)))
  }

  /** What the midpoint loops keep: the decision term and its two differences have their closed
      forms, and (x, y) is on the circle up to the last step, which may mirror the one before. */
  ghost predicate Midpoint(r: int, x: int, y: int, f: int, ddFx: int, ddFy: int) {
    && ddFx == 2 * x + 1 && ddFy == -2 * y
    && f == (x + 1) * (x + 1) + y * y - y - r * r
    && 0 <= x <= y + 1 && 0 <= y <= r && x <= r
    && -y <= x * x + y * y - r * r <= y
    && (x <= y ==> Nearest(r * r - x * x, y))
    && (x == y + 1 ==> Nearest(r * r - y * y, x))
  }

  /** From (x, y) on the circle the loop goes on to (x + 1, y'), which is on the circle too unless
      it has crossed the diagonal. */
  ghost predicate Octant(r: int, x: int, y: int, y': int) {
    && 0 <= x < y && (y' == y || y' == y - 1)
    && Nearest(r * r - x * x, y)
    && r * r - (x + 1) * (x + 1) <= y' * (y' + 1)
    && (x + 1 <= y' ==> Nearest(r * r - (x + 1) * (x + 1), y'))
  }

  lemma NearestUnique(n: int, b: int, c: int)
    requires 0 <= b && 0 <= c && Nearest(n, b) && Nearest(n, c)
    ensures b == c
  {
    if b < c {
      MulMono(b + 1, b, c, c - 1);
    } else if c < b {
      MulMono(c + 1, c, b, b - 1);
    }
  }

  /** The decision term stays within int16 as long as the radius does so twice over. */
  lemma MidpointBounds(r: int, x: int, y: int, f: int, ddFx: int, ddFy: int)
    requires Midpoint(r, x, y, f, ddFx, ddFy)
    ensures 2 * x + 1 - 2 * y <= f <= 2 * x + 1 && 0 <= x <= r && 0 <= y <= r
    ensures -2 * r <= ddFy <= 0 && 1 <= ddFx <= 2 * r + 1
    ensures r * r - y <= x * x + y * y <= r * r + y
  {
    assert (x + 1) * (x + 1) == x * x + 2 * x + 1;
  }

  lemma MidpointStart(r: int)
    requires 0 <= r
    ensures Midpoint(r, 0, r, 1 - r, 1, -2 * r)
  {
    assert r * (r - 1) == r * r - r;
    assert r * (r + 1) == r * r + r;
  }

  /** One iteration of the loop, in both of its branches. */
  lemma MidpointStep(r: int, x: int, y: int, f: int, ddFx: int, ddFy: int)
    requires Midpoint(r, x, y, f, ddFx, ddFy) && x < y
    ensures f < 0 ==> Midpoint(r, x + 1, y, f + (ddFx + 2), ddFx + 2, ddFy)
    ensures f >= 0 ==> Midpoint(r, x + 1, y - 1, f + (ddFy + 2) + (ddFx + 2), ddFx + 2, ddFy + 2)
    ensures Octant(r, x, y, if f >= 0 then y - 1 else y)
  {
    assert (x + 1) * (x + 1) == x * x + 2 * x + 1;
    assert (x + 2) * (x + 2) == x * x + 4 * x + 4;
    assert (y - 1) * (y - 1) == y * y - 2 * y + 1;
    assert y * (y + 1) == y * y + y;
    assert y * (y - 1) == y * y - y;
    assert (y - 1) * (y - 2) == y * y - 3 * y + 2;
    assert y - 1 == 0 || (y - 1) * ((y - 1) - 1) == y * y - 3 * y + 2;
    assert (y - 1) * ((y - 1) + 1) == y * y - y;
  }

  /** Circle points within the first k columns or rows of an octant. */
  predicate OnCircleUpTo(r: int, k: int, dx: int, dy: int) {
    OnCircle(r, dx, dy) && Min(Abs(dx), Abs(dy)) <= k
  }

  predicate Mirrors(x: int, y: int, dx: int, dy: int) {
    (Abs(dx) == x && Abs(dy) == y) || (Abs(dx) == y && Abs(dy) == x)
  }

  lemma CircleStart(r: int, dx: int, dy: int)
    requires 0 <= r
    ensures OnCircleUpTo(r, 0, dx, dy) <==> Mirrors(0, r, dx, dy)
  {
    var b := Max(Abs(dx), Abs(dy));
    MidpointStart(r);
    if OnCircleUpTo(r, 0, dx, dy) {
      NearestUnique(r * r - 0 * 0, r, b);
    }
  }

  /** The same for the ordered coordinates of a point. */
  lemma OrderedCircleStep(r: int, x: int, y: int, y': int, a: int, b: int)
    requires Octant(r, x, y, y') && 0 <= a <= b
    ensures Nearest(r * r - a * a, b) && a <= x + 1 <==>
      (Nearest(r * r - a * a, b) && a <= x) || (a == Min(x + 1, y') && b == Max(x + 1, y'))
  {
    if a == x + 1 {
      if x + 1 <= y' {
        if Nearest(r * r - a * a, b) { NearestUnique(r * r - a * a, y', b); }
      } else {
        MulMono(y' + 1, y', b, b - 1);
      }
    }
  }

  /** A step of the loop adds exactly the eight mirror images of its point. */
  lemma CircleStep(r: int, x: int, y: int, y': int, dx: int, dy: int)
    requires Octant(r, x, y, y')
    ensures OnCircleUpTo(r, x + 1, dx, dy) <==> OnCircleUpTo(r, x, dx, dy) || Mirrors(x + 1, y', dx, dy)
  {
    OrderedCircleStep(r, x, y, y', Min(Abs(dx), Abs(dy)), Max(Abs(dx), Abs(dy)));
    hide Nearest;
  }

  /** Past the diagonal no pixel of the disc is left. */
  lemma PastDiagonal(r: int, x: int, y: int, f: int, ddFx: int, ddFy: int, a: int, b: int)
    requires Midpoint(r, x, y, f, ddFx, ddFy) && y <= x < a <= b
    ensures r * r - a * a <= b * (b - 1)
  {
    MulMono(x + 1, x + 1, a, a);
    MulMono(x + 1, x, b, b - 1);
    assert (x + 1) * (x + 1) == x * x + 2 * x + 1;
    assert (x + 1) * x == x * x + x;
    MulMono(y, y, x, x);
  }

  /** When the loop ends the whole circle has been drawn. */
  lemma CircleDone(r: int, x: int, y: int, f: int, ddFx: int, ddFy: int, dx: int, dy: int)
    requires Midpoint(r, x, y, f, ddFx, ddFy) && x >= y
    ensures OnCircleUpTo(r, x, dx, dy) <==> OnCircle(r, dx, dy)
  {
    if Min(Abs(dx), Abs(dy)) > x {
      PastDiagonal(r, x, y, f, ddFx, ddFy, Min(Abs(dx), Abs(dy)), Max(Abs(dx), Abs(dy)));
    }
  }

  function At(x0: int16, y0: int16, dx: int, dy: int): Pixel {
    Pixel(ToInt16(x0 + dx), ToInt16(y0 + dy))
  }

  /** The eight mirror images of (x, y) about (x0, y0). */
  function Octants(x0: int16, y0: int16, x: int, y: int): set<Pixel> {
    {At(x0, y0, x, y), At(x0, y0, -x, y), At(x0, y0, x, -y), At(x0, y0, -x, -y),
     At(x0, y0, y, x), At(x0, y0, -y, x), At(x0, y0, y, -x), At(x0, y0, -y, -x)}
  }

  lemma AtOffset(x0: int16, y0: int16, dx: int16, dy: int16, p: Pixel)
    ensures p == At(x0, y0, dx, dy) <==> OnDevice(p) && Offset(p.x, x0) == dx && Offset(p.y, y0) == dy
  {
    hide ToInt16;
    OffsetOf(x0, dx, p.x);
    OffsetOf(y0, dy, p.y);
  }

  lemma OctantsAreMirrors(x0: int16, y0: int16, x: int16, y: int16, p: Pixel)
    requires 0 <= x && 0 <= y
    ensures p in Octants(x0, y0, x, y) <==> OnDevice(p) && Mirrors(x, y, Offset(p.x, x0), Offset(p.y, y0))
  {
    hide At, Offset, OnDevice;
    AtOffset(x0, y0, x, y, p); AtOffset(x0, y0, -x, y, p); AtOffset(x0, y0, x, -y, p); AtOffset(x0, y0, -x, -y, p);
    AtOffset(x0, y0, y, x, p); AtOffset(x0, y0, -y, x, p); AtOffset(x0, y0, y, -x, p); AtOffset(x0, y0, -y, -x, p);
  }

  ghost predicate CircleDrawn(before: set<Pixel>, now: set<Pixel>, x0: int16, y0: int16, r: int, k: int) {
    forall p :: p in now <==>
      p in before || (OnDevice(p) && OnCircleUpTo(r, k, Offset(p.x, x0), Offset(p.y, y0)))
  }

  lemma CircleBegun(before: set<Pixel>, x0: int16, y0: int16, r: int16)
    requires 0 <= r
    ensures CircleDrawn(before, before + {At(x0, y0, 0, r), At(x0, y0, 0, -r), At(x0, y0, r, 0), At(x0, y0, -r, 0)},
                        x0, y0, r, 0)
  {
    hide At, Offset, OnDevice, OnCircleUpTo;
    forall p: Pixel
      ensures p in {At(x0, y0, 0, r), At(x0, y0, 0, -r), At(x0, y0, r, 0), At(x0, y0, -r, 0)} <==>
        OnDevice(p) && OnCircleUpTo(r, 0, Offset(p.x, x0), Offset(p.y, y0))
    {
      CircleStart(r, Offset(p.x, x0), Offset(p.y, y0));
      AtOffset(x0, y0, 0, r, p); AtOffset(x0, y0, 0, -r, p); AtOffset(x0, y0, r, 0, p); AtOffset(x0, y0, -r, 0, p);
    }
  }

  lemma CircleGrown(before: set<Pixel>, now: set<Pixel>, x0: int16, y0: int16, r: int,
                    x: int, y: int, x': int16, y': int16)
    requires Octant(r, x, y, y') && x' == x + 1 && CircleDrawn(before, now, x0, y0, r, x)
    ensures CircleDrawn(before, now + Octants(x0, y0, x', y'), x0, y0, r, x')
  {
    hide Octants, Offset, OnDevice, OnCircleUpTo;
    forall p: Pixel
      ensures OnDevice(p) && OnCircleUpTo(r, x', Offset(p.x, x0), Offset(p.y, y0)) <==>
        || (OnDevice(p) && OnCircleUpTo(r, x, Offset(p.x, x0), Offset(p.y, y0)))
        || p in Octants(x0, y0, x', y')
    {
      CircleStep(r, x, y, y', Offset(p.x, x0), Offset(p.y, y0));
      OctantsAreMirrors(x0, y0, x', y', p);
    }
  }

  lemma CircleFinished(before: set<Pixel>, now: set<Pixel>, x0: int16, y0: int16, r: int,
                       x: int, y: int, f: int, ddFx: int, ddFy: int)
    requires Midpoint(r, x, y, f, ddFx, ddFy) && x >= y && CircleDrawn(before, now, x0, y0, r, x)
    ensures forall p :: p in now <==> p in before || (OnDevice(p) && OnCircle(r, Offset(p.x, x0), Offset(p.y, y0)))
  {
    hide Offset, OnDevice, OnCircleUpTo, OnCircle;
    forall p: Pixel {
      CircleDone(r, x, y, f, ddFx, ddFy, Offset(p.x, x0), Offset(p.y, y0));
    }
  }

  /** All of the circle of radius r about (x0, y0) has coordinates in int16. */
  predicate HasMargin(x0: int, y0: int, r: int) {
    FitsInt16(x0 - r) && FitsInt16(x0 + r) && FitsInt16(y0 - r) && FitsInt16(y0 + r)
  }

  lemma OnCircleBound(r: int, dx: int, dy: int)
    requires 0 <= r && OnCircle(r, dx, dy)
    ensures Abs(dx) <= r && Abs(dy) <= r
  {
    CircleIsRim(r, Min(Abs(dx), Abs(dy)), Max(Abs(dx), Abs(dy)));
  }

  /** Then nothing wraps around. */
  lemma PlainCircle(x0: int16, y0: int16, r: int, p: Pixel)
    requires 0 <= r < 0x8000 && HasMargin(x0, y0, r)
    ensures OnDevice(p) && OnCircle(r, Offset(p.x, x0), Offset(p.y, y0)) <==> OnCircle(r, p.x - x0, p.y - y0)
  {
    hide Offset, OnCircle;
    if OnCircle(r, p.x - x0, p.y - y0) {
      OnCircleBound(r, p.x - x0, p.y - y0);
      PlainOffset(p.x, x0);
      PlainOffset(p.y, y0);
    } else if OnDevice(p) && OnCircle(r, Offset(p.x, x0), Offset(p.y, y0)) {
      OnCircleBound(r, Offset(p.x, x0), Offset(p.y, y0));
      PlainOffset(p.x, x0);
      PlainOffset(p.y, y0);
    }
  }

  /** Pixels of the disc in finished columns: the columns up to k, and those from y on in the
      rows up to k. */
  predicate InDiscUpTo(r: int, k: int, y: int, dx: int, dy: int) {
    InDisc(r, dx, dy) && (Abs(dx) <= k || (0 < k && y <= Abs(dx) && Abs(dy) <= k))
  }

  lemma DiscStart(r: int, dx: int, dy: int)
    requires 0 <= r
    ensures InDiscUpTo(r, 0, r, dx, dy) <==> dx == 0 && Abs(dy) <= r
  {
    if Abs(dy) > r { MulMono(r + 1, r, Abs(dy), Abs(dy) - 1); }
    if 0 < Abs(dy) <= r { MulMono(Abs(dy), Abs(dy) - 1, r, r - 1); }
    MulMono(0, 0, r, r);
  }

  /** The tips of the disc on its horizontal axis belong to the first step. */
  lemma FirstTip(r: int, y: int, y': int, c: nat)
    requires 0 <= r && Octant(r, 0, y, y') && y <= c && InDisc(r, c, 0)
    ensures c == y' || (c == 1 && y' == 0)
  {
    CircleStart(r, 0, r);
    NearestUnique(r * r - 0 * 0, r, y);
    if c > r { MulMono(r + 1, r, c, c - 1); }
    assert y' == r - 1 ==> y' * (y' + 1) == r * r - r;
  }

  /** A step of the filling loop adds exactly its column of half-height y' and its mirror image,
      the column y' of half-height x + 1. */
  lemma DiscStep(r: int, x: int, y: int, y': int, dx: int, dy: int)
    requires 0 <= r && Octant(r, x, y, y')
    ensures InDiscUpTo(r, x + 1, y', dx, dy) <==>
      || InDiscUpTo(r, x, y, dx, dy)
      || (Abs(dx) == x + 1 && Abs(dy) <= y')
      || (Abs(dx) == y' && Abs(dy) <= x + 1)
  {
    var c, d := Abs(dx), Abs(dy);
    if x == 0 && d == 0 && y <= c && InDisc(r, c, d) {
      FirstTip(r, y, y', c);
    }
    if c == x + 1 && d <= y' {
      DiscColumn(r, x, y, y', c, d);
    } else if c == y' && d <= x + 1 {
      DiscColumn(r, x, y, y', d, c);
    } else if c == x + 1 {
      BeyondArc(r, x + 1, y', d);
    } else if d == x + 1 && y' < c {
      BeyondArc(r, x + 1, y', c);
    }
  }

  lemma BeyondArc(r: int, a: int, y: int, b: int)
    requires r * r - a * a <= y * (y + 1)
    requires 0 <= a - 1 <= y < b
    ensures r * r - a * a <= b * (b - 1)
  {
    MulMono(y + 1, y, b, b - 1);
  }

  lemma DiscColumn(r: int, x: int, y: int, y': int, c: nat, d: nat)
    requires Octant(r, x, y, y')
    requires c <= x + 1 && d <= y' && (c == x + 1 || d == y')
    ensures InDisc(r, c, d)
  {
    var a, b := Min(c, d), Max(c, d);
    MulMono(a, a, x + 1, x + 1);
    if x + 1 <= y' {
      if b > 0 { MulMono(b, b - 1, y', y' - 1); }
    } else {
      MulMono(a, a, x, x);
      if b > 0 { MulMono(b, b - 1, y, y - 1); }
    }
  }

  /** When the filling loop ends the whole disc has been drawn. */
  lemma DiscDone(r: int, x: int, y: int, f: int, ddFx: int, ddFy: int, dx: int, dy: int)
    requires Midpoint(r, x, y, f, ddFx, ddFy) && x >= y
    ensures InDiscUpTo(r, x, y, dx, dy) <==> InDisc(r, dx, dy)
  {
    if Min(Abs(dx), Abs(dy)) > x {
      PastDiagonal(r, x, y, f, ddFx, ddFy, Min(Abs(dx), Abs(dy)), Max(Abs(dx), Abs(dy)));
    }
  }

  lemma OrderedCoverage(r: int, a: int, b: int)
    requires 0 <= r && 0 <= a <= b
    ensures a * a + b * b <= r * r && b != 0 ==> b * (b - 1) < r * r - a * a
    ensures b * (b - 1) < r * r - a * a ==> a * a + b * b < r * r + b && b <= r
  {
    assert b * (b - 1) == b * b - b;
    if b > r {
      MulMono(r + 1, r, b, b - 1);
      assert (r + 1) * r == r * r + r;
      MulMono(0, 0, a, a);
    }
  }

  lemma SquaresOrdered(dx: int, dy: int)
    ensures dx * dx + dy * dy
         == Min(Abs(dx), Abs(dy)) * Min(Abs(dx), Abs(dy)) + Max(Abs(dx), Abs(dy)) * Max(Abs(dx), Abs(dy))
  {
    assert dx * dx == Abs(dx) * Abs(dx);
    assert dy * dy == Abs(dy) * Abs(dy);
  }

  /** The disc covers every lattice point of the closed Euclidean disc and exceeds it by less than
      a pixel: no point of it has a squared distance above r * r + r. */
  lemma DiscCoverage(r: int, dx: int, dy: int)
    requires 0 <= r
    ensures dx * dx + dy * dy <= r * r ==> InDisc(r, dx, dy)
    ensures InDisc(r, dx, dy) ==> dx * dx + dy * dy <= r * r + r && Abs(dx) <= r && Abs(dy) <= r
  {
    SquaresOrdered(dx, dy);
    OrderedCoverage(r, Min(Abs(dx), Abs(dy)), Max(Abs(dx), Abs(dy)));
    MulMono(0, 0, r, r);
  }

  /** The circle is the rim of the disc: along its longer coordinate the next pixel is outside. */
  lemma CircleIsRim(r: int, a: nat, b: nat)
    requires 0 <= r && a <= b
    ensures OnCircle(r, a, b) <==> InDisc(r, a, b) && !InDisc(r, a, b + 1)
    ensures OnCircle(r, a, b) ==> r * r - b <= a * a + b * b <= r * r + b && b <= r
  {
    MulMono(0, 0, r, r);
    MulMono(0, 0, a, a);
    assert (b + 1) * (b + 1 - 1) == b * (b + 1);
    RimDistance(r * r - a * a, b);
    OrderedCoverage(r, a, b);
  }

  lemma RimDistance(n: int, b: nat)
    ensures Nearest(n, b) ==> n - b <= b * b <= n + b || (b == 0 && n <= 0)
  {
    assert b * (b + 1) == b * b + b && b * (b - 1) == b * b - b;
  }

  /** Nearest means what it says: the distance to the real square root is below one half. */
  lemma NearestIsRounding(n: int, b: int, root: real)
    requires 0 < b && 0.0 <= root && root * root == n as real
    ensures Nearest(n, b) <==> -0.5 < b as real - root < 0.5
  {
    var m := b as real;
    assert (b * (b - 1)) as real == m * m - m && (b * (b + 1)) as real == m * m + m;
    assert (m - 0.5) * (m - 0.5) == m * m - m + 0.25;
    assert (m + 0.5) * (m + 0.5) == m * m + m + 0.25;
    SquareOrder(m - 0.5, root);
    SquareOrder(root, m + 0.5);
  }

  lemma ProductSign(a: real, b: real)
    requires 0.0 <= b
    ensures 0.0 < a && 0.0 < b ==> 0.0 < a * b
    ensures a <= 0.0 ==> a * b <= 0.0
  {
  }

  lemma SquareOrder(s: real, t: real)
    requires 0.0 <= s && 0.0 <= t
    ensures s < t <==> s * s < t * t
  {
    assert t * t - s * s == (t - s) * (t + s);
    ProductSign(t - s, t + s);
  }

  /** Corners are numbered as in the program: 1, 2, 4 and 8 clockwise from the upper left. */
  predicate InCorner(corner: bv8, dx: int, dy: int) {
    || (corner & 4 != 0 && 0 <= dx && 0 <= dy)
    || (corner & 2 != 0 && 0 <= dx && dy <= 0)
    || (corner & 8 != 0 && dx <= 0 && 0 <= dy)
    || (corner & 1 != 0 && dx <= 0 && dy <= 0)
  }

  /** The corner arcs leave out the four points on the axes, except that at radius 1 the loop
      steps across the diagonal onto them. */
  predicate OnArcUpTo(r: int, k: int, corner: bv8, dx: int, dy: int) {
    && OnCircleUpTo(r, k, dx, dy) && InCorner(corner, dx, dy)
    && ((dx != 0 && dy != 0) || (r == 1 && 1 <= k))
  }

  predicate OnArc(r: int, corner: bv8, dx: int, dy: int) {
    OnCircle(r, dx, dy) && InCorner(corner, dx, dy) && ((dx != 0 && dy != 0) || r == 1)
  }

  /** The loop reaches an axis only at radius 1. */
  lemma AxisReached(r: int, x: int, y: int)
    requires 0 <= r && Octant(r, x, y, 0)
    ensures r == 1 && x == 0 && y == 1
  {
    NearestUnique(r * r - x * x, y, 1);
    CircleStart(r, 0, r);
    NearestUnique(r * r - 0 * 0, r, 1);
  }

  lemma ArcStep(r: int, x: int, y: int, y': int, corner: bv8, dx: int, dy: int)
    requires 0 <= r && Octant(r, x, y, y')
    ensures OnArcUpTo(r, x + 1, corner, dx, dy) <==>
      OnArcUpTo(r, x, corner, dx, dy) || (InCorner(corner, dx, dy) && Mirrors(x + 1, y', dx, dy))
  {
    CircleStep(r, x, y, y', dx, dy);
    if y' == 0 {
      AxisReached(r, x, y);
    }
    if r == 1 {
      OctantAtOne(x, y);
      CircleStart(1, dx, dy);
    }
  }

  lemma OctantAtOne(x: int, y: int)
    requires 0 <= x < y && Nearest(1 * 1 - x * x, y)
    ensures x == 0 && y == 1
  {
    if y > 1 { MulMono(2, 1, y, y - 1); MulMono(0, 0, x, x); }
  }

  /** Several corners together are the corners one by one. */
  lemma CornersCombine(c: bv8, d: bv8, dx: int, dy: int)
    ensures InCorner(c | d, dx, dy) <==> InCorner(c, dx, dy) || InCorner(d, dx, dy)
    ensures !InCorner(0, dx, dy)
  {
  }

  ghost predicate ArcDrawn(before: set<Pixel>, now: set<Pixel>, x0: int16, y0: int16, r: int, corner: bv8, k: int) {
    forall p :: p in now <==>
      p in before || (OnDevice(p) && OnArcUpTo(r, k, corner, Offset(p.x, x0), Offset(p.y, y0)))
  }

  lemma ArcGrown(before: set<Pixel>, was: set<Pixel>, now: set<Pixel>, x0: int16, y0: int16, r: int, corner: bv8,
                 x: int, y: int, x': int, y': int)
    requires 0 <= r && Octant(r, x, y, y') && x' == x + 1 && ArcDrawn(before, was, x0, y0, r, corner, x)
    requires forall p :: p in now <==>
      || p in was
      || (OnDevice(p) && InCorner(corner, Offset(p.x, x0), Offset(p.y, y0))
          && Mirrors(x', y', Offset(p.x, x0), Offset(p.y, y0)))
    ensures ArcDrawn(before, now, x0, y0, r, corner, x')
  {
    hide Offset, OnDevice, OnArcUpTo, InCorner, Mirrors;
    forall p: Pixel {
      ArcStep(r, x, y, y', corner, Offset(p.x, x0), Offset(p.y, y0));
    }
  }

  lemma ArcFinished(before: set<Pixel>, now: set<Pixel>, x0: int16, y0: int16, r: int, corner: bv8,
                    x: int, y: int, f: int, ddFx: int, ddFy: int)
    requires Midpoint(r, x, y, f, ddFx, ddFy) && x >= y && ArcDrawn(before, now, x0, y0, r, corner, x)
    ensures forall p :: p in now <==>
      p in before || (OnDevice(p) && OnArc(r, corner, Offset(p.x, x0), Offset(p.y, y0)))
  {
    hide Offset, OnDevice;
    forall p: Pixel {
      CircleDone(r, x, y, f, ddFx, ddFy, Offset(p.x, x0), Offset(p.y, y0));
    }
  }

  /** The drawn arcs have coordinates in int16. */
  predicate HasCornerMargin(x0: int, y0: int, r: int, corner: bv8) {
    && (corner & 1 != 0 || corner & 8 != 0 ==> FitsInt16(x0 - r))
    && (corner & 2 != 0 || corner & 4 != 0 ==> FitsInt16(x0 + r))
    && (corner & 1 != 0 || corner & 2 != 0 ==> FitsInt16(y0 - r))
    && (corner & 4 != 0 || corner & 8 != 0 ==> FitsInt16(y0 + r))
  }

  lemma CornerFits(x0: int16, y0: int16, r: int, corner: bv8, dx: int, dy: int)
    requires 0 <= r && HasCornerMargin(x0, y0, r, corner) && OnArc(r, corner, dx, dy)
    ensures FitsInt16(x0 + dx) && FitsInt16(y0 + dy)
  {
    hide OnCircle;
    OnCircleBound(r, dx, dy);
  }

  lemma PlainArc(x0: int16, y0: int16, r: int, corner: bv8, p: Pixel)
    requires 0 <= r < 0x8000 && HasCornerMargin(x0, y0, r, corner)
    ensures OnDevice(p) && OnArc(r, corner, Offset(p.x, x0), Offset(p.y, y0)) <==> OnArc(r, corner, p.x - x0, p.y - y0)
  {
    hide OnArc, Offset, HasCornerMargin;
    if OnArc(r, corner, p.x - x0, p.y - y0) {
      CornerFits(x0, y0, r, corner, p.x - x0, p.y - y0);
      ArcBound(r, corner, p.x - x0, p.y - y0);
      PlainOffset(p.x, x0);
      PlainOffset(p.y, y0);
    } else if OnDevice(p) && OnArc(r, corner, Offset(p.x, x0), Offset(p.y, y0)) {
      CornerFits(x0, y0, r, corner, Offset(p.x, x0), Offset(p.y, y0));
      PlainOffset(p.x, x0);
      PlainOffset(p.y, y0);
    }
  }

  lemma ArcBound(r: int, corner: bv8, dx: int, dy: int)
    requires 0 <= r && OnArc(r, corner, dx, dy)
    ensures Abs(dx) <= r && Abs(dy) <= r
  {
    OnCircleBound(r, dx, dy);
  }

  /** Distance of v from the interval lo..hi, negative below it: pulling a figure apart at its
      centre line leaves a pixel at v where it was at Stretch(v, lo, hi). */
  function Stretch(v: int, lo: int, hi: int): int {
    if v < lo then v - lo else if v > hi then v - hi else 0
  }

  predicate OnSide(corner: bv8, dx: int) {
    (corner & 1 != 0 && 0 <= dx) || (corner & 2 != 0 && dx <= 0)
  }

  /** The filled half-discs leave out the centre column, except at radius 1. */
  predicate InSideUpTo(r: int, k: int, y: int, corner: bv8, dx: int, dy: int) {
    InDiscUpTo(r, k, y, dx, dy) && OnSide(corner, dx) && (dx != 0 || (r == 1 && 1 <= k))
  }

  predicate InSide(r: int, corner: bv8, dx: int, dy: int) {
    InDisc(r, dx, dy) && OnSide(corner, dx) && (dx != 0 || r == 1)
  }

  predicate InSpans(x: int, y: int, dx: int, dy: int) {
    (Abs(dx) == x && Abs(dy) <= y) || (Abs(dx) == y && Abs(dy) <= x)
  }

  lemma SideStep(r: int, x: int, y: int, y': int, corner: bv8, dx: int, dy: int)
    requires 0 <= r && Octant(r, x, y, y')
    ensures InSideUpTo(r, x + 1, y', corner, dx, dy) <==>
      InSideUpTo(r, x, y, corner, dx, dy) || (OnSide(corner, dx) && InSpans(x + 1, y', dx, dy))
  {
    DiscStep(r, x, y, y', dx, dy);
    if y' == 0 {
      AxisReached(r, x, y);
    }
    if r == 1 {
      OctantAtOne(x, y);
      DiscStart(1, dx, dy);
    }
  }

  /** The rows of a column that is pulled apart downward by delta rows, or pushed together: from its
      upper end to its lower end moved by delta. */
  predicate InPulledSide(r: int, corner: bv8, dx: int, dy: int, delta: int) {
    InSide(r, corner, dx, Min(dy, 0)) && InSide(r, corner, dx, Max(dy - delta, 0))
  }

  lemma PulledIsStretched(r: int, corner: bv8, dx: int, dy: int, delta: int)
    requires 0 <= r && 0 <= delta
    ensures InPulledSide(r, corner, dx, dy, delta) <==> InSide(r, corner, dx, Stretch(dy, 0, delta))
  {
    hide InDisc;
    if InDisc(r, dx, Stretch(dy, 0, delta)) {
      DiscCloses(r, dx, Stretch(dy, 0, delta), 0);
    }
  }

  /** Columns that are shortened are what two discs have in common. */
  lemma ShortenedIsCommon(r: int, corner: bv8, dx: int, dy: int, delta: int)
    requires 0 <= r && delta <= 0
    ensures InPulledSide(r, corner, dx, dy, delta) <==> InSide(r, corner, dx, dy) && InSide(r, corner, dx, dy - delta)
  {
    hide InDisc;
    var v, w := Min(dy, 0), Max(dy - delta, 0);
    if InDisc(r, dx, v) { DiscCloses(r, dx, v, 0); }
    if InDisc(r, dx, dy) { DiscCloses(r, dx, dy, 0); }
    if InDisc(r, dx, dy - delta) { DiscCloses(r, dx, dy - delta, 0); }
    if dy < 0 && InDisc(r, dx, dy) && dy - delta < 0 { DiscCloses(r, dx, dy, dy - delta); }
    if 0 < dy && InDisc(r, dx, dy - delta) { DiscCloses(r, dx, dy - delta, dy); }
  }

  /** A column of the disc reaches as far up as down and has no gaps. */
  lemma DiscCloses(r: int, dx: int, dy: int, dy': int)
    requires 0 <= r && InDisc(r, dx, dy) && Abs(dy') <= Abs(dy)
    ensures InDisc(r, dx, dy')
  {
    var a, b := Min(Abs(dx), Abs(dy)), Max(Abs(dx), Abs(dy));
    var a', b' := Min(Abs(dx), Abs(dy')), Max(Abs(dx), Abs(dy'));
    MulMono(a', a', a, a);
    if 0 < b' {
      MulMono(b', b' - 1, b, b - 1);
    }
  }

  predicate InPulledSideUpTo(r: int, k: int, y: int, corner: bv8, dx: int, dy: int, delta: int) {
    InSideUpTo(r, k, y, corner, dx, Min(dy, 0)) && InSideUpTo(r, k, y, corner, dx, Max(dy - delta, 0))
  }

  predicate InPulledSpans(x: int, y: int, dx: int, dy: int, delta: int) {
    (Abs(dx) == x && -y <= dy <= y + delta) || (Abs(dx) == y && -x <= dy <= x + delta)
  }

  lemma PulledStep(r: int, x: int, y: int, y': int, corner: bv8, dx: int, dy: int, delta: int)
    requires 0 <= r && Octant(r, x, y, y')
    ensures InPulledSideUpTo(r, x + 1, y', corner, dx, dy, delta) <==>
      || InPulledSideUpTo(r, x, y, corner, dx, dy, delta)
      || (OnSide(corner, dx) && InPulledSpans(x + 1, y', dx, dy, delta))
  {
    var v, w := Min(dy, 0), Max(dy - delta, 0);
    SideStep(r, x, y, y', corner, dx, v);
    SideStep(r, x, y, y', corner, dx, w);
    if Abs(v) <= Abs(w) {
      SideCloses(r, x, y, corner, dx, w, v);
    } else {
      SideCloses(r, x, y, corner, dx, v, w);
    }
    assert InPulledSpans(x + 1, y', dx, dy, delta) <==> InSpans(x + 1, y', dx, v) && InSpans(x + 1, y', dx, w);
    hide InSideUpTo, Octant;
  }

  lemma SideCloses(r: int, k: int, y: int, corner: bv8, dx: int, v: int, u: int)
    requires 0 <= r && Abs(u) <= Abs(v)
    ensures InSideUpTo(r, k, y, corner, dx, v) ==> InSideUpTo(r, k, y, corner, dx, u)
  {
    hide InDisc;
    if InDisc(r, dx, v) {
      DiscCloses(r, dx, v, u);
    }
  }

  /** How far v is below c, going around so as to leave most of the room below. */
  function Below(v: int, c: int): int {
    (v - c + 0x4000) % 0x1_0000 - 0x4000
  }

  /** One column of the filling loop. */
  lemma ColumnSpan(x0: int16, y0: int16, d: int16, h: int, delta: int, p: Pixel)
    requires 0 <= h <= 0x4000 && 2 * h + 1 + delta < 0x8000
    ensures InWrappedRect(ToInt16(x0 + d), ToInt16(y0 - h), 1, 2 * h + 1 + delta, p) <==>
      OnDevice(p) && Offset(p.x, x0) == d && -h <= Below(p.y, y0) <= h + delta
  {
    hide Offset, Below;
    OffsetOf(x0, d, p.x);
    if FitsInt16(p.x) {
      SpanOfOne(ToInt16(x0 + d), p.x);
    }
    if FitsInt16(p.y) {
      SpanBelow(y0, h, delta, p.y);
    }
  }

  lemma SpanOfOne(x: int16, v: int16)
    ensures InSpan(x, 1, v) <==> v == x
  {
    SpanPosition(x, 0, v);
  }

  lemma SpanBelow(y0: int16, h: int, delta: int, v: int16)
    requires 0 <= h <= 0x4000 && 2 * h + 1 + delta < 0x8000
    ensures InSpan(ToInt16(y0 - h), 2 * h + 1 + delta, v) <==> -h <= Below(v, y0) <= h + delta
  {
    var q, s := (y0 - h + 0x8000) / 0x1_0000, (v - y0 + 0x4000) / 0x1_0000;
    var t := Below(v, y0);
    assert y0 - h == 0x1_0000 * q + ToInt16(y0 - h) && v - y0 == 0x1_0000 * s + t;
    var n := v - ToInt16(y0 - h);
    assert n == 0x1_0000 * (s + q) + t + h;
    if 0 <= t + h {
      DivModUnique(n, 0x1_0000, s + q, t + h);
    } else {
      DivModUnique(n, 0x1_0000, s + q - 1, t + h + 0x1_0000);
    }
  }

  predicate HasSideMargin(x0: int, y0: int, r: int, corner: bv8, delta: int) {
    && (corner & 1 != 0 ==> FitsInt16(x0 + r))
    && (corner & 2 != 0 ==> FitsInt16(x0 - r))
    && FitsInt16(y0 - r) && FitsInt16(y0 + r + delta)
  }

  lemma SideBound(r: int, corner: bv8, dx: int, dy: int, delta: int)
    requires 0 <= r && InPulledSide(r, corner, dx, dy, delta)
    ensures Abs(dx) <= r && -r <= dy <= r + delta
    ensures (corner & 1 != 0 && 0 <= dx) || (corner & 2 != 0 && dx <= 0)
  {
    hide InDisc;
    DiscCoverage(r, dx, Min(dy, 0));
    DiscCoverage(r, dx, Max(dy - delta, 0));
  }

  lemma PlainBelow(v: int16, c: int16)
    ensures FitsInt16(c + Below(v, c)) || -0x4000 <= v - c < 0xC000 ==> Below(v, c) == v - c
  {
    var s := (v - c + 0x4000) / 0x1_0000;
    assert v - c == 0x1_0000 * s + Below(v, c);
    assert s == 0 || s <= -1 || 1 <= s;
  }

  /** With the sides that are drawn inside the coordinates nothing wraps around. */
  lemma PlainSide(x0: int16, y0: int16, r: int, corner: bv8, delta: int, p: Pixel)
    requires 0 <= r <= 0x4000 && 2 * r + 1 + delta < 0x8000 && HasSideMargin(x0, y0, r, corner, delta)
    ensures OnDevice(p) && InPulledSide(r, corner, Offset(p.x, x0), Below(p.y, y0), delta) <==>
      InPulledSide(r, corner, p.x - x0, p.y - y0, delta)
  {
    hide InPulledSide, Offset, Below;
    if InPulledSide(r, corner, p.x - x0, p.y - y0, delta) {
      SideBound(r, corner, p.x - x0, p.y - y0, delta);
      PlainOffset(p.x, x0);
      PlainBelow(p.y, y0);
    } else if OnDevice(p) && InPulledSide(r, corner, Offset(p.x, x0), Below(p.y, y0), delta) {
      SideBound(r, corner, Offset(p.x, x0), Below(p.y, y0), delta);
      PlainOffset(p.x, x0);
      PlainBelow(p.y, y0);
    }
  }

  /** Where the circle meets its axes; at radius 1 that is all of it. */
  lemma CircleOnAxis(r: int, dx: int, dy: int)
    requires 0 <= r
    ensures dx == 0 || dy == 0 ==> (OnCircle(r, dx, dy) <==> Mirrors(0, r, dx, dy))
    ensures r <= 1 && OnCircle(r, dx, dy) ==> dx == 0 || dy == 0
  {
    CircleStart(r, dx, dy);
    if r <= 1 && dx != 0 && dy != 0 {
      SmallCircle(r, Min(Abs(dx), Abs(dy)), Max(Abs(dx), Abs(dy)));
    }
  }

  lemma SmallCircle(r: int, a: int, b: int)
    requires 0 <= r <= 1 <= a <= b
    ensures r * r - a * a <= b * (b - 1)
  {
    MulMono(1, 1, a, a);
    MulMono(0, 0, b, b - 1);
    MulMono(r, r, 1, 1);
  }

  /** The centre column and the two half-discs make up the disc. */
  lemma DiscParts(r: int, dx: int, dy: int)
    requires 0 <= r
    ensures InDisc(r, dx, dy) <==> (dx == 0 && Abs(dy) <= r) || InPulledSide(r, 3, dx, dy, 0)
  {
    DiscStart(r, dx, dy);
    PulledIsStretched(r, 3, dx, dy, 0);
  }

  /** The centre column and the half-discs with coordinates that wrap around. */
  lemma WrappedDisc(x0: int16, y0: int16, r: int, p: Pixel)
    requires 0 <= r < 0x4000
    ensures OnDevice(p) && InDisc(r, Offset(p.x, x0), Offset(p.y, y0)) <==>
      || InWrappedRect(x0, ToInt16(y0 - r), 1, 2 * r + 1, p)
      || (OnDevice(p) && InPulledSide(r, 3, Offset(p.x, x0), Below(p.y, y0), 0))
  {
    hide InPulledSide, InDisc, Offset, Below, InWrappedRect;
    assert ToInt16(x0 + 0) == x0;
    ColumnSpan(x0, y0, 0, r, 0, p);
    if OnDevice(p) {
      var dx, dy, dy' := Offset(p.x, x0), Offset(p.y, y0), Below(p.y, y0);
      DiscParts(r, dx, dy');
      DiscCoverage(r, dx, dy);
      DiscCoverage(r, dx, dy');
      SmallOffsets(p.y, y0);
    }
  }

  /** The columns of one iteration of the filling loop. */
  lemma SpansWritten(x0: int16, y0: int16, x: int16, y: int16, corner: bv8, delta: int, p: Pixel)
    requires 0 <= x <= 0x4000 && 0 <= y <= 0x4000 && 2 * Max(x, y) + 1 + delta < 0x8000
    ensures (OnDevice(p) && OnSide(corner, Offset(p.x, x0))
             && InPulledSpans(x, y, Offset(p.x, x0), Below(p.y, y0), delta)) <==>
      || (corner & 1 != 0 && (|| InWrappedRect(ToInt16(x0 + x), ToInt16(y0 - y), 1, 2 * y + 1 + delta, p)
                              || InWrappedRect(ToInt16(x0 + y), ToInt16(y0 - x), 1, 2 * x + 1 + delta, p)))
      || (corner & 2 != 0 && (|| InWrappedRect(ToInt16(x0 - x), ToInt16(y0 - y), 1, 2 * y + 1 + delta, p)
                              || InWrappedRect(ToInt16(x0 - y), ToInt16(y0 - x), 1, 2 * x + 1 + delta, p)))
  {
    hide Offset, Below, InWrappedRect, OnDevice, ToInt16;
    ColumnSpan(x0, y0, x, y, delta, p);
    ColumnSpan(x0, y0, y, x, delta, p);
    ColumnSpan(x0, y0, -x, y, delta, p);
    ColumnSpan(x0, y0, -y, x, delta, p);
  }

  lemma SmallOffsets(v: int16, c: int16)
    ensures Offset(v, c) == Below(v, c) || (Abs(Offset(v, c)) >= 0x4000 && Abs(Below(v, c)) >= 0x4000)
  {
    var s := (v - c + 0x4000) / 0x1_0000;
    assert v - c == 0x1_0000 * s + Below(v, c) && -1 <= s <= 1;
    WrapsTo(v - c, Offset(v, c));
  }

  lemma PlainDisc(x0: int16, y0: int16, r: int, p: Pixel)
    requires 0 <= r < 0x8000 && HasMargin(x0, y0, r)
    ensures OnDevice(p) && InDisc(r, Offset(p.x, x0), Offset(p.y, y0)) <==> InDisc(r, p.x - x0, p.y - y0)
  {
    hide Offset, InDisc;
    if InDisc(r, p.x - x0, p.y - y0) {
      DiscCoverage(r, p.x - x0, p.y - y0);
      PlainOffset(p.x, x0);
      PlainOffset(p.y, y0);
    } else if OnDevice(p) && InDisc(r, Offset(p.x, x0), Offset(p.y, y0)) {
      DiscCoverage(r, Offset(p.x, x0), Offset(p.y, y0));
      PlainOffset(p.x, x0);
      PlainOffset(p.y, y0);
    }
  }

  /** The pixels that drawCircleHelper writes for one point of the octant. */
  function Corners(x0: int16, y0: int16, x: int, y: int, corner: bv8): set<Pixel> {
    (if corner & 4 != 0 then {At(x0, y0, x, y), At(x0, y0, y, x)} else {})
    + (if corner & 2 != 0 then {At(x0, y0, x, -y), At(x0, y0, y, -x)} else {})
    + (if corner & 8 != 0 then {At(x0, y0, -y, x), At(x0, y0, -x, y)} else {})
    + (if corner & 1 != 0 then {At(x0, y0, -y, -x), At(x0, y0, -x, -y)} else {})
  }

  lemma CornersAreMirrors(x0: int16, y0: int16, x: int16, y: int16, corner: bv8, p: Pixel)
    requires 0 <= x && 0 <= y
    ensures p in Corners(x0, y0, x, y, corner) <==>
      && OnDevice(p) && InCorner(corner, Offset(p.x, x0), Offset(p.y, y0))
      && Mirrors(x, y, Offset(p.x, x0), Offset(p.y, y0))
  {
    hide At, Offset, OnDevice;
    AtOffset(x0, y0, x, y, p); AtOffset(x0, y0, y, x, p);
    AtOffset(x0, y0, x, -y, p); AtOffset(x0, y0, y, -x, p);
    AtOffset(x0, y0, -y, x, p); AtOffset(x0, y0, -x, y, p);
    AtOffset(x0, y0, -y, -x, p); AtOffset(x0, y0, -x, -y, p);
  }
}
