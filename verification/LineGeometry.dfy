/** The pixels of a straight line, and the arithmetic of Bresenham's error term. */
module LineGeometry {
  import opened MachineInts
  import opened Raster

  /** After k of n major steps the line of slope d / n has risen by k * d / n; j is that rise
      rounded to the nearest integer, ties going down. */
  predicate NearestOffset(n: int, d: int, k: int, j: int) {
    if n == 0 then j == 0 else -(n / 2) <= j * n - k * d < n - n / 2
  }

  predicate Steep(x0: int, y0: int, x1: int, y1: int) {
    Abs(y1 - y0) > Abs(x1 - x0)
  }

  /** (x, y) is on the line whose major axis is x and whose first endpoint is the left one. */
  predicate OnRightward(x0: int, y0: int, x1: int, y1: int, x: int, y: int) {
    x0 <= x <= x1
    && NearestOffset(x1 - x0, Abs(y1 - y0), x - x0, if y0 < y1 then y - y0 else y0 - y)
  }

  predicate OnShallow(x0: int, y0: int, x1: int, y1: int, x: int, y: int) {
    if x0 <= x1 then OnRightward(x0, y0, x1, y1, x, y) else OnRightward(x1, y1, x0, y0, x, y)
  }

  /** The pixels of the line between two endpoints. */
  predicate OnLine(x0: int, y0: int, x1: int, y1: int, p: Pixel) {
    if Steep(x0, y0, x1, y1) then OnShallow(y0, x0, y1, x1, p.y, p.x) else OnShallow(x0, y0, x1, y1, p.x, p.y)
  }

  function MajorLength(x0: int, y0: int, x1: int, y1: int): nat {
    Max(Abs(x1 - x0), Abs(y1 - y0))
  }

  /** Each major step has exactly one pixel. */
  lemma OffsetUnique(n: int, d: int, k: int, i: int, j: int)
    requires 0 <= n && NearestOffset(n, d, k, i) && NearestOffset(n, d, k, j)
    ensures i == j
  {
    if i < j {
      MulStep(n, i, j);
    } else if j < i {
      MulStep(n, j, i);
    }
  }

  /** The error term after k steps and j rises is in range exactly when j is the nearest offset,
      and one iteration of the loop keeps it there. */
  lemma ErrorStep(n: int, d: int, k: int, j: int, err: int)
    requires 0 <= d <= n && 0 <= k && NearestOffset(n, d, k, j) && err == n / 2 - k * d + j * n
    ensures 0 <= err && (err < n || n == 0)
    ensures err - d < 0 ==> NearestOffset(n, d, k + 1, j + 1) && err - d + n == n / 2 - (k + 1) * d + (j + 1) * n
    ensures err - d >= 0 ==> NearestOffset(n, d, k + 1, j) && err - d == n / 2 - (k + 1) * d + j * n
  {
    assert (k + 1) * d == k * d + d;
    assert (j + 1) * n == j * n + n;
    if n == 0 { assert k * d == 0; }
  }

  lemma MulCancel(n: int, a: int, b: int, c: int)
    requires 0 < n && a * n < b * n + c && c <= n
    ensures a <= b
  {
    assert n * (b + 1) == b * n + n && n * a == a * n;
    if b < a {
      MulStep(n, b, a);
    }
  }

  /** The offset stays between those of the two endpoints. */
  lemma OffsetRange(n: int, d: int, k: int, j: int)
    requires 0 <= d <= n && 0 <= k <= n && NearestOffset(n, d, k, j)
    ensures 0 <= j <= d && (k == 0 ==> j == 0) && (k == n ==> j == d)
  {
    if n > 0 {
      MulMono(d, 0, d, k);
      MulMono(d, k, d, n);
      assert d * n == n * d && d * k == k * d;
      MulCancel(n, j, d, n - n / 2);
      MulCancel(n, 0, j, n / 2 + 1);
      if k == 0 { MulCancel(n, j, 0, n - n / 2); }
      if k == n { MulCancel(n, d, j, n / 2 + 1); }
    }
  }

  function OffsetAt(n: nat, d: int, k: int): (j: int)
    requires 0 <= d <= n && 0 <= k <= n
  {
    if n == 0 then 0 else (k * d + n - n / 2 - 1) / n
  }

  lemma DivisionBounds(m: int, n: int)
    requires n > 0
    ensures m / n * n <= m < m / n * n + n
  {
    assert m == n * (m / n) + m % n;
  }

  lemma OffsetAtIsNearest(n: nat, d: int, k: int)
    requires 0 <= d <= n && 0 <= k <= n
    ensures NearestOffset(n, d, k, OffsetAt(n, d, k))
  {
    if n > 0 {
      DivisionBounds(k * d + n - n / 2 - 1, n);
    }
  }

  /** The coordinate of a pixel along the major axis of a line. */
  function MajorOf(x0: int, y0: int, x1: int, y1: int, p: Pixel): int {
    if Steep(x0, y0, x1, y1) then p.y else p.x
  }

  function MinorOf(x0: int, y0: int, x1: int, y1: int, p: Pixel): int {
    if Steep(x0, y0, x1, y1) then p.x else p.y
  }

  /** The line does not depend on the order of its endpoints. */
  lemma LineSymmetric(x0: int, y0: int, x1: int, y1: int, p: Pixel)
    ensures OnLine(x0, y0, x1, y1, p) <==> OnLine(x1, y1, x0, y0, p)
  {
    assert Steep(x0, y0, x1, y1) == Steep(x1, y1, x0, y0);
  }

  lemma LineEndpoints(x0: int, y0: int, x1: int, y1: int)
    ensures OnLine(x0, y0, x1, y1, Pixel(x0, y0)) && OnLine(x0, y0, x1, y1, Pixel(x1, y1))
  {
    if Steep(x0, y0, x1, y1) {
      ShallowEndpoints(y0, x0, y1, x1);
    } else {
      ShallowEndpoints(x0, y0, x1, y1);
    }
  }

  lemma ShallowEndpoints(x0: int, y0: int, x1: int, y1: int)
    requires Abs(y1 - y0) <= Abs(x1 - x0)
    ensures OnShallow(x0, y0, x1, y1, x0, y0) && OnShallow(x0, y0, x1, y1, x1, y1)
  {
    var n, d := Abs(x1 - x0), Abs(y1 - y0);
    OffsetAtIsNearest(n, d, 0);
    OffsetRange(n, d, 0, OffsetAt(n, d, 0));
    OffsetAtIsNearest(n, d, n);
    OffsetRange(n, d, n, OffsetAt(n, d, n));
  }

  /** The pixel of a major step is the ideal point rounded to the nearest one, and where two are equally
      near, to the one nearer to the minor coordinate of the first endpoint. */
  lemma RightwardIsRounding(x0: int, y0: int, x1: int, y1: int, x: int, y: int)
    requires Abs(y1 - y0) <= x1 - x0 && 0 < x1 - x0
    ensures OnRightward(x0, y0, x1, y1, x, y) <==>
      && x0 <= x <= x1
      && var excess := (if y0 < y1 then y - y0 else y0 - y) * (x1 - x0) - (x - x0) * Abs(y1 - y0);
         -(x1 - x0) <= 2 * excess < x1 - x0
  {
    HalfBounds(x1 - x0, (if y0 < y1 then y - y0 else y0 - y) * (x1 - x0) - (x - x0) * Abs(y1 - y0));
  }

  lemma HalfBounds(n: int, e: int)
    requires 0 < n
    ensures -(n / 2) <= e < n - n / 2 <==> -n <= 2 * e < n
  {
  }

  lemma RightwardIsFunction(a0: int, b0: int, a1: int, b1: int, a: int) returns (b: int)
    requires Abs(b1 - b0) <= a1 - a0 && a0 <= a <= a1
    ensures forall b' :: OnRightward(a0, b0, a1, b1, a, b') <==> b' == b
  {
    var n, d := a1 - a0, Abs(b1 - b0);
    var j := OffsetAt(n, d, a - a0);
    OffsetAtIsNearest(n, d, a - a0);
    b := if b0 < b1 then b0 + j else b0 - j;
    forall b' | OnRightward(a0, b0, a1, b1, a, b')
      ensures b' == b
    {
      OffsetUnique(n, d, a - a0, if b0 < b1 then b' - b0 else b0 - b', j);
    }
  }

  /** One pixel for each major coordinate between the endpoints, and none beyond them. */
  lemma LineIsFunction(x0: int, y0: int, x1: int, y1: int, m: int) returns (p: Pixel)
    ensures MajorOf(x0, y0, x1, y1, p) == m
    ensures OnLine(x0, y0, x1, y1, p) <==>
      if Steep(x0, y0, x1, y1) then Min(y0, y1) <= m <= Max(y0, y1) else Min(x0, x1) <= m <= Max(x0, x1)
    ensures forall q: Pixel | OnLine(x0, y0, x1, y1, q) && MajorOf(x0, y0, x1, y1, q) == m :: q == p
  {
    hide NearestOffset;
    var steep := Steep(x0, y0, x1, y1);
    var a0, b0, a1, b1 := if steep then y0 else x0, if steep then x0 else y0,
                          if steep then y1 else x1, if steep then x1 else y1;
    if a0 > a1 {
      a0, b0, a1, b1 := a1, b1, a0, b0;
    }
    var b := 0;
    if a0 <= m <= a1 {
      b := RightwardIsFunction(a0, b0, a1, b1, m);
    }
    p := if steep then Pixel(b, m) else Pixel(m, b);
  }

  /** The line has as many pixels as there are writes, so that none is written twice. */
  lemma LinePixels(x0: int, y0: int, x1: int, y1: int) returns (s: set<Pixel>)
    ensures forall p :: p in s <==> OnLine(x0, y0, x1, y1, p)
    ensures |s| == MajorLength(x0, y0, x1, y1) + 1
  {
    var lo := if Steep(x0, y0, x1, y1) then Min(y0, y1) else Min(x0, x1);
    s := PixelsFrom(x0, y0, x1, y1, lo, lo + MajorLength(x0, y0, x1, y1));
    forall p {
      OnlyBetween(x0, y0, x1, y1, p);
    }
  }

  lemma OnlyBetween(x0: int, y0: int, x1: int, y1: int, p: Pixel)
    ensures OnLine(x0, y0, x1, y1, p) ==>
      if Steep(x0, y0, x1, y1) then Min(y0, y1) <= p.y <= Max(y0, y1) else Min(x0, x1) <= p.x <= Max(x0, x1)
  {
  }

  lemma PixelsFrom(x0: int, y0: int, x1: int, y1: int, lo: int, hi: int) returns (s: set<Pixel>)
    requires lo <= hi + 1
    requires if Steep(x0, y0, x1, y1) then Min(y0, y1) <= lo && hi <= Max(y0, y1)
      else Min(x0, x1) <= lo && hi <= Max(x0, x1)
    ensures forall p :: p in s <==> OnLine(x0, y0, x1, y1, p) && lo <= MajorOf(x0, y0, x1, y1, p) <= hi
    ensures |s| == hi - lo + 1
    decreases hi + 1 - lo
  {
    hide OnLine, Steep;
    s := {};
    if lo <= hi {
      s := PixelsFrom(x0, y0, x1, y1, lo, hi - 1);
      var q := LineIsFunction(x0, y0, x1, y1, hi);
      s := s + {q};
    }
  }

  /** Pixels one major step apart are at most one minor step apart. */
  lemma LineConnected(x0: int, y0: int, x1: int, y1: int, p: Pixel, q: Pixel)
    requires MajorOf(x0, y0, x1, y1, q) == MajorOf(x0, y0, x1, y1, p) + 1
    ensures OnLine(x0, y0, x1, y1, p) && OnLine(x0, y0, x1, y1, q) ==>
      Abs(MinorOf(x0, y0, x1, y1, q) - MinorOf(x0, y0, x1, y1, p)) <= 1
  {
    if OnLine(x0, y0, x1, y1, p) && OnLine(x0, y0, x1, y1, q) {
      if Steep(x0, y0, x1, y1) {
        ShallowConnected(y0, x0, y1, x1, p.y, p.x, q.x);
      } else {
        ShallowConnected(x0, y0, x1, y1, p.x, p.y, q.y);
      }
    }
  }

  lemma ShallowConnected(x0: int, y0: int, x1: int, y1: int, x: int, y: int, y': int)
    requires Abs(y1 - y0) <= Abs(x1 - x0)
    requires OnShallow(x0, y0, x1, y1, x, y) && OnShallow(x0, y0, x1, y1, x + 1, y')
    ensures Abs(y' - y) <= 1
  {
    if x0 <= x1 {
      RightwardConnected(x0, y0, x1, y1, x, y, y');
    } else {
      RightwardConnected(x1, y1, x0, y0, x, y, y');
    }
  }

  lemma RightwardConnected(x0: int, y0: int, x1: int, y1: int, x: int, y: int, y': int)
    requires Abs(y1 - y0) <= x1 - x0
    requires OnRightward(x0, y0, x1, y1, x, y) && OnRightward(x0, y0, x1, y1, x + 1, y')
    ensures Abs(y' - y) <= 1
  {
    if y0 < y1 {
      OffsetConnected(x1 - x0, y1 - y0, x - x0, y - y0, y' - y0);
    } else {
      OffsetConnected(x1 - x0, y0 - y1, x - x0, y0 - y, y0 - y');
    }
  }

  lemma OffsetConnected(n: int, d: int, k: int, i: int, j: int)
    requires 0 <= d <= n && 0 <= k && NearestOffset(n, d, k, i) && NearestOffset(n, d, k + 1, j)
    ensures i <= j <= i + 1
  {
    ErrorStep(n, d, k, i, n / 2 - k * d + i * n);
    if n / 2 - k * d + i * n - d < 0 {
      OffsetUnique(n, d, k + 1, i + 1, j);
    } else {
      OffsetUnique(n, d, k + 1, i, j);
    }
  }

  /** No pixel of the line is farther than half a pixel from the ideal line along the minor axis:
      its cross product with the direction of the line is at most half the major length. */
  lemma LineNearest(x0: int, y0: int, x1: int, y1: int, p: Pixel)
    ensures OnLine(x0, y0, x1, y1, p) ==>
      2 * Abs((p.y - y0) * (x1 - x0) - (p.x - x0) * (y1 - y0)) <= MajorLength(x0, y0, x1, y1)
  {
    if OnLine(x0, y0, x1, y1, p) {
      if Steep(x0, y0, x1, y1) {
        ShallowNearest(y0, x0, y1, x1, p.y, p.x);
      } else {
        ShallowNearest(x0, y0, x1, y1, p.x, p.y);
      }
    }
  }

  lemma ShallowNearest(x0: int, y0: int, x1: int, y1: int, x: int, y: int)
    requires Abs(y1 - y0) <= Abs(x1 - x0) && OnShallow(x0, y0, x1, y1, x, y)
    ensures 2 * Abs((y - y0) * (x1 - x0) - (x - x0) * (y1 - y0)) <= Abs(x1 - x0)
  {
    if x0 <= x1 {
      RightwardNearest(x0, y0, x1, y1, x, y);
    } else {
      RightwardNearest(x1, y1, x0, y0, x, y);
      CrossFromOtherEnd(x - x0, y - y0, x1 - x0, y1 - y0);
    }
  }

  lemma CrossFromOtherEnd(u: int, v: int, dx: int, dy: int)
    ensures (v - dy) * -dx - (u - dx) * -dy == -(v * dx - u * dy)
  {
    assert (v - dy) * -dx == -(v * dx) + dy * dx;
    assert (u - dx) * -dy == -(u * dy) + dx * dy;
  }

  lemma RightwardNearest(x0: int, y0: int, x1: int, y1: int, x: int, y: int)
    requires Abs(y1 - y0) <= x1 - x0 && OnRightward(x0, y0, x1, y1, x, y)
    ensures 2 * Abs((y - y0) * (x1 - x0) - (x - x0) * (y1 - y0)) <= x1 - x0
  {
    if y1 <= y0 {
      assert (y0 - y) * (x1 - x0) == -((y - y0) * (x1 - x0));
      assert (x - x0) * (y0 - y1) == -((x - x0) * (y1 - y0));
    }
  }

  /** Vertical and horizontal lines are filled strips one pixel wide. */
  lemma StraightLines(x0: int, y0: int, x1: int, y1: int, p: Pixel)
    ensures x0 == x1 ==> (OnLine(x0, y0, x1, y1, p) <==> p.x == x0 && Min(y0, y1) <= p.y <= Max(y0, y1))
    ensures y0 == y1 ==> (OnLine(x0, y0, x1, y1, p) <==> p.y == y0 && Min(x0, x1) <= p.x <= Max(x0, x1))
  {
    if x0 == x1 { FlatLine(Abs(y1 - y0), p.y - Min(y0, y1), p.x - x0); }
    if y0 == y1 { FlatLine(Abs(x1 - x0), p.x - Min(x0, x1), p.y - y0); }
  }

  lemma FlatLine(n: nat, k: int, j: int)
    requires 0 <= n
    ensures 0 <= k <= n ==> (NearestOffset(n, 0, k, j) <==> j == 0)
    ensures 0 <= k <= n ==> (NearestOffset(n, 0, k, -j) <==> j == 0)
  {
    if 0 <= k <= n {
      OffsetAtIsNearest(n, 0, k);
      OffsetRange(n, 0, k, OffsetAt(n, 0, k));
      if NearestOffset(n, 0, k, j) { OffsetRange(n, 0, k, j); }
      if NearestOffset(n, 0, k, -j) { OffsetRange(n, 0, k, -j); }
    }
  }

  /** The state of the line loop after k pixels and j rises. */
  ghost predicate Bresenham(n: int, d: int, k: int, j: int, err: int) {
    0 <= d <= n && 0 <= k <= n + 1 && NearestOffset(n, d, k, j) && err == n / 2 - k * d + j * n
  }

  lemma BresenhamStart(n: int, d: int)
    requires 0 <= d <= n
    ensures Bresenham(n, d, 0, 0, n / 2)
  {
  }

  lemma BresenhamStep(n: int, d: int, k: int, j: int, err: int)
    requires Bresenham(n, d, k, j, err) && k <= n
    ensures 0 <= j <= d && 0 <= err && (err < n || n == 0)
    ensures err - d < 0 ==> Bresenham(n, d, k + 1, j + 1, err - d + n)
    ensures err - d >= 0 ==> Bresenham(n, d, k + 1, j, err - d)
  {
    OffsetRange(n, d, k, j);
    ErrorStep(n, d, k, j, err);
  }
}
