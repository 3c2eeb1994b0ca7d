/** The pixels of a filled triangle, and how they relate to the Euclidean triangle. */
module TriangleGeometry {
  import opened MachineInts
  import opened Raster

  /** Where the segment from u to v crosses row y, rounded toward u. */
  function EdgeX(u: Pixel, v: Pixel, y: int): int
    requires u.y != v.y
  {
    u.x + TruncDiv((v.x - u.x) * (y - u.y), v.y - u.y)
  }

  function SortByY(v0: Pixel, v1: Pixel, v2: Pixel): (Pixel, Pixel, Pixel) {
    var (a, b) := if v0.y > v1.y then (v1, v0) else (v0, v1);
    var (b', c) := if b.y > v2.y then (v2, b) else (b, v2);
    if a.y > b'.y then (b', a, c) else (a, b', c)
  }

  predicate Sorted(v0: Pixel, v1: Pixel, v2: Pixel) {
    v0.y <= v1.y <= v2.y
  }

  function Min3(a: int, b: int, c: int): int {
    Min(a, Min(b, c))
  }

  function Max3(a: int, b: int, c: int): int {
    Max(a, Max(b, c))
  }

  /** The two ends of the span on row y of a triangle that is sorted and not flat. */
  function SpanEnds(v0: Pixel, v1: Pixel, v2: Pixel, y: int): (int, int)
    requires Sorted(v0, v1, v2) && v0.y < v2.y && v0.y <= y <= v2.y
  {
    (if y < v1.y || v1.y == v2.y then EdgeX(v0, v1, y) else EdgeX(v1, v2, y), EdgeX(v0, v2, y))
  }

  predicate InSortedFill(v0: Pixel, v1: Pixel, v2: Pixel, p: Pixel)
    requires Sorted(v0, v1, v2)
  {
    v0.y <= p.y <= v2.y &&
    if v0.y == v2.y then
      Min3(v0.x, v1.x, v2.x) <= p.x <= Max3(v0.x, v1.x, v2.x)
    else
      var (a, b) := SpanEnds(v0, v1, v2, p.y);
      Min(a, b) <= p.x <= Max(a, b)
  }

  predicate InFill(v0: Pixel, v1: Pixel, v2: Pixel, p: Pixel) {
    var (a, b, c) := SortByY(v0, v1, v2);
    InSortedFill(a, b, c, p)
  }

  lemma EdgeAt(u: Pixel, v: Pixel, y: int, s: int)
    requires u.y != v.y && s == (v.x - u.x) * (y - u.y)
    ensures EdgeX(u, v, y) == u.x + TruncDiv(s, v.y - u.y)
  {
    hide TruncDiv;
  }

  /** One less than the number of pixels of a row. */
  function RowWidth(v0: Pixel, v1: Pixel, v2: Pixel, y: int): nat
    requires Sorted(v0, v1, v2) && v0.y <= y <= v2.y
  {
    if v0.y == v2.y then Max3(v0.x, v1.x, v2.x) - Min3(v0.x, v1.x, v2.x)
    else var (a, b) := SpanEnds(v0, v1, v2, y); Max(a, b) - Min(a, b)
  }

  /** The program passes the number of pixels of a row as an int16: a row of 32768 pixels or more is
      not drawn. */
  function RowWrites(width: nat): nat {
    if width < 0x7FFF then width + 1 else 0
  }

  predicate InSortedDrawn(v0: Pixel, v1: Pixel, v2: Pixel, p: Pixel)
    requires Sorted(v0, v1, v2)
  {
    InSortedFill(v0, v1, v2, p) && RowWidth(v0, v1, v2, p.y) < 0x7FFF
  }

  predicate InDrawnFill(v0: Pixel, v1: Pixel, v2: Pixel, p: Pixel) {
    var (a, b, c) := SortByY(v0, v1, v2);
    InSortedDrawn(a, b, c, p)
  }

  /** The span ends by the running sums of the two slopes. */
  lemma UpperSpan(v0: Pixel, v1: Pixel, v2: Pixel, y: int, sa: int, sb: int)
    requires Sorted(v0, v1, v2) && v0.y < v2.y && v0.y <= y <= v2.y && (y < v1.y || v1.y == v2.y)
    requires sa == (v1.x - v0.x) * (y - v0.y) && sb == (v2.x - v0.x) * (y - v0.y)
    ensures SpanEnds(v0, v1, v2, y) == (v0.x + TruncDiv(sa, v1.y - v0.y), v0.x + TruncDiv(sb, v2.y - v0.y))
  {
    hide EdgeX, TruncDiv;
    EdgeAt(v0, v1, y, sa);
    EdgeAt(v0, v2, y, sb);
  }

  lemma LowerSpan(v0: Pixel, v1: Pixel, v2: Pixel, y: int, sa: int, sb: int)
    requires Sorted(v0, v1, v2) && v0.y < v2.y && v1.y <= y <= v2.y && v1.y < v2.y
    requires sa == (v2.x - v1.x) * (y - v1.y) && sb == (v2.x - v0.x) * (y - v0.y)
    ensures SpanEnds(v0, v1, v2, y) == (v1.x + TruncDiv(sa, v2.y - v1.y), v0.x + TruncDiv(sb, v2.y - v0.y))
  {
    hide EdgeX, TruncDiv;
    EdgeAt(v1, v2, y, sa);
    EdgeAt(v0, v2, y, sb);
  }

  /** Number of pixels drawn on the rows from v0.y up to but excluding y. */
  function PixelsAbove(v0: Pixel, v1: Pixel, v2: Pixel, y: int): nat
    requires Sorted(v0, v1, v2) && v0.y < v2.y && v0.y <= y <= v2.y + 1
    decreases y - v0.y
  {
    if y == v0.y then 0
    else PixelsAbove(v0, v1, v2, y - 1) + RowWrites(RowWidth(v0, v1, v2, y - 1))
  }

  /** Twice the signed area of u, v, p: its sign says on which side of the line u v the point p is. */
  function Cross(u: Pixel, v: Pixel, p: Pixel): int {
    (v.x - u.x) * (p.y - u.y) - (v.y - u.y) * (p.x - u.x)
  }

  /** The closed Euclidean triangle: on no two edges do the sides differ. The row bound matters
      only when the vertices are collinear. */
  predicate InClosedTriangle(v0: Pixel, v1: Pixel, v2: Pixel, p: Pixel) {
    && Min3(v0.y, v1.y, v2.y) <= p.y <= Max3(v0.y, v1.y, v2.y)
    && Min3(v0.x, v1.x, v2.x) <= p.x <= Max3(v0.x, v1.x, v2.x)
    && ((Cross(v0, v1, p) >= 0 && Cross(v1, v2, p) >= 0 && Cross(v2, v0, p) >= 0)
        || (Cross(v0, v1, p) <= 0 && Cross(v1, v2, p) <= 0 && Cross(v2, v0, p) <= 0))
  }

  lemma TruncDivBounds(n: int, d: int)
    requires d > 0
    ensures n >= 0 ==> TruncDiv(n, d) * d <= n < TruncDiv(n, d) * d + d
    ensures n <= 0 ==> TruncDiv(n, d) * d - d < n <= TruncDiv(n, d) * d
  {
    var m := if n < 0 then -n else n;
    assert m == d * (m / d) + m % d;
    assert -(m / d) * d == -(d * (m / d));
  }

  /** A lattice point on or right of an edge is on or right of its rounded crossing, and one on or
      right of the rounded crossing is less than a pixel left of the edge; and mirrored. */
  lemma EdgeRounding(u: Pixel, v: Pixel, p: Pixel)
    requires u.y < v.y
    ensures Cross(u, v, p) <= 0 ==> EdgeX(u, v, p.y) <= p.x
    ensures Cross(u, v, p) >= 0 ==> p.x <= EdgeX(u, v, p.y)
    ensures EdgeX(u, v, p.y) <= p.x ==> Cross(u, v, p) < v.y - u.y
    ensures p.x <= EdgeX(u, v, p.y) ==> -(v.y - u.y) < Cross(u, v, p)
  {
    var n, d, t := (v.x - u.x) * (p.y - u.y), v.y - u.y, p.x - u.x;
    var c := TruncDiv(n, d);
    TruncDivBounds(n, d);
    assert d * t == t * d;
    if t < c { MulStep(d, t, c); }
    if c < t { MulStep(d, c, t); }
  }

  /** The rounded crossing is the last pixel on the way from u to v that is not beyond the exact one. */
  lemma EdgeCrossing(u: Pixel, v: Pixel, y: int)
    requires u.y < v.y && u.y <= y <= v.y
    ensures var c, d, w := EdgeX(u, v, y) - u.x, v.y - u.y, (v.x - u.x) * (y - u.y);
      && (u.x <= v.x ==> c * d <= w < c * d + d)
      && (v.x <= u.x ==> c * d - d < w <= c * d)
  {
    var w, h := v.x - u.x, y - u.y;
    TruncDivBounds(w * h, v.y - u.y);
    if u.x <= v.x {
      MulMono(0, 0, w, h);
    }
    if v.x <= u.x {
      MulMono(0, 0, -w, h);
      assert -w * h == -(w * h);
    }
  }

  /** The crossing lies between the ends of the segment and meets them. */
  lemma EdgeRange(u: Pixel, v: Pixel, y: int)
    requires u.y < v.y && u.y <= y <= v.y
    ensures Min(u.x, v.x) <= EdgeX(u, v, y) <= Max(u.x, v.x)
    ensures EdgeX(u, v, u.y) == u.x && EdgeX(u, v, v.y) == v.x
  {
    var d := v.y - u.y;
    EdgeEnds(v.x - u.x, d);
    PartWay(v.x - u.x, y - u.y, d);
  }

  lemma PartWay(w: int, h: int, d: int)
    requires 0 <= h <= d && 0 < d
    ensures w >= 0 ==> 0 <= TruncDiv(w * h, d) <= w
    ensures w <= 0 ==> w <= TruncDiv(w * h, d) <= 0
  {
    var c := TruncDiv(w * h, d);
    TruncDivBounds(w * h, d);
    hide TruncDiv;
    if w >= 0 {
      MulMono(w, h, w, d);
      if c < 0 { MulStep(d, c, 0); }
      if w < c { MulStep(d, w, c); }
    } else {
      MulMono(-w, h, -w, d);
      assert -w * h == -(w * h) && -w * d == -(w * d);
      if c > 0 { MulStep(d, 0, c); }
      if c < w { MulStep(d, c, w); }
    }
  }

  lemma EdgeEnds(w: int, d: int)
    requires d > 0
    ensures TruncDiv(w * 0, d) == 0 && TruncDiv(w * d, d) == w
  {
    QuotientIs(Abs(w), d);
    if w < 0 {
      assert -(w * d) == -w * d;
      ProductPositive(-w, d);
    } else {
      ProductPositive(w, d);
    }
  }

  lemma ProductPositive(m: int, d: int)
    requires 0 <= m && 0 < d
    ensures 0 <= m * d && (m > 0 ==> 0 < m * d)
  {
  }

  lemma QuotientIs(m: int, d: int)
    requires 0 <= m && 0 < d
    ensures m * d / d == m
  {
    var q := m * d / d;
    assert m * d == d * q + m * d % d;
    if q < m {
      MulStep(d, q, m);
    } else if m < q {
      MulStep(d, m, q);
    }
  }

  lemma SpanInBox(v0: Pixel, v1: Pixel, v2: Pixel, y: int)
    requires Sorted(v0, v1, v2) && v0.y < v2.y && v0.y <= y <= v2.y
    ensures Min3(v0.x, v1.x, v2.x) <= SpanEnds(v0, v1, v2, y).0 <= Max3(v0.x, v1.x, v2.x)
    ensures Min3(v0.x, v1.x, v2.x) <= SpanEnds(v0, v1, v2, y).1 <= Max3(v0.x, v1.x, v2.x)
  {
    EdgeRange(v0, v2, y);
    if y < v1.y || v1.y == v2.y {
      EdgeRange(v0, v1, y);
    } else {
      EdgeRange(v1, v2, y);
    }
  }

  /** All three vertices are painted and every painted pixel is in their bounding box. */
  lemma FillBox(v0: Pixel, v1: Pixel, v2: Pixel, p: Pixel)
    ensures InFill(v0, v1, v2, v0) && InFill(v0, v1, v2, v1) && InFill(v0, v1, v2, v2)
    ensures InFill(v0, v1, v2, p) ==>
      && Min3(v0.x, v1.x, v2.x) <= p.x <= Max3(v0.x, v1.x, v2.x)
      && Min3(v0.y, v1.y, v2.y) <= p.y <= Max3(v0.y, v1.y, v2.y)
  {
    hide SpanEnds, EdgeX;
    var (a, b, c) := SortByY(v0, v1, v2);
    if a.y < c.y {
      SortedVertices(a, b, c);
      if InSortedFill(a, b, c, p) {
        SpanInBox(a, b, c, p.y);
      }
    }
  }

  lemma SortedVertices(v0: Pixel, v1: Pixel, v2: Pixel)
    requires Sorted(v0, v1, v2) && v0.y < v2.y
    ensures InSortedFill(v0, v1, v2, v0) && InSortedFill(v0, v1, v2, v1) && InSortedFill(v0, v1, v2, v2)
  {
    EdgeRange(v0, v2, v0.y);
    if v0.y < v1.y { EdgeRange(v0, v1, v0.y); }
    if v1.y < v2.y { EdgeRange(v1, v2, v1.y); }
  }

  /** Every lattice point of the closed triangle is painted. */
  lemma FillCovers(v0: Pixel, v1: Pixel, v2: Pixel, p: Pixel)
    requires InClosedTriangle(v0, v1, v2, p)
    ensures InFill(v0, v1, v2, p)
  {
    var (a, b, c) := SortByY(v0, v1, v2);
    SortKeepsTriangle(v0, v1, v2, p);
    if a.y < c.y {
      CrossTurned(a, c, p);
      EdgeRounding(a, c, p);
      if p.y < b.y || b.y == c.y {
        EdgeRounding(a, b, p);
      } else {
        EdgeRounding(b, c, p);
      }
    }
  }

  lemma CrossTurned(u: Pixel, v: Pixel, p: Pixel)
    ensures Cross(v, u, p) == -Cross(u, v, p)
  {
    assert (u.x - v.x) * (p.y - v.y) == -(v.x - u.x) * (p.y - u.y) + (v.x - u.x) * (v.y - u.y);
    assert (u.y - v.y) * (p.x - v.x) == -(v.y - u.y) * (p.x - u.x) + (v.y - u.y) * (v.x - u.x);
  }

  lemma TriangleSwaps(v0: Pixel, v1: Pixel, v2: Pixel, p: Pixel)
    ensures InClosedTriangle(v0, v1, v2, p) <==> InClosedTriangle(v1, v0, v2, p)
    ensures InClosedTriangle(v0, v1, v2, p) <==> InClosedTriangle(v0, v2, v1, p)
  {
    CrossTurned(v0, v1, p);
    CrossTurned(v1, v2, p);
    CrossTurned(v2, v0, p);
  }

  lemma SortKeepsTriangle(v0: Pixel, v1: Pixel, v2: Pixel, p: Pixel)
    ensures var (a, b, c) := SortByY(v0, v1, v2);
      Sorted(a, b, c) && (InClosedTriangle(v0, v1, v2, p) <==> InClosedTriangle(a, b, c, p))
  {
    var (a, b) := if v0.y > v1.y then (v1, v0) else (v0, v1);
    TriangleSwaps(v0, v1, v2, p);
    var (b', c) := if b.y > v2.y then (v2, b) else (b, v2);
    TriangleSwaps(a, b, v2, p);
    TriangleSwaps(a, b', c, p);
  }

  /** The painted set does not depend on the order in which the vertices are given. */
  lemma FillSymmetric(v0: Pixel, v1: Pixel, v2: Pixel, p: Pixel)
    ensures InFill(v0, v1, v2, p) <==> InFill(v1, v0, v2, p)
    ensures InFill(v0, v1, v2, p) <==> InFill(v0, v2, v1, p)
  {
  }

  /** No painted pixel is a whole pixel or more to the left, or to the right, of both edges that
      bound its row. */
  lemma FillIsTight(v0: Pixel, v1: Pixel, v2: Pixel, p: Pixel)
    requires Sorted(v0, v1, v2) && v0.y < v2.y
    ensures var (u, v) := if p.y < v1.y || v1.y == v2.y then (v0, v1) else (v1, v2);
      InFill(v0, v1, v2, p) ==>
      && !(Cross(u, v, p) >= v.y - u.y && Cross(v0, v2, p) >= v2.y - v0.y)
      && !(Cross(u, v, p) <= -(v.y - u.y) && Cross(v0, v2, p) <= -(v2.y - v0.y))
  {
    if InFill(v0, v1, v2, p) {
      EdgeRounding(v0, v2, p);
      if p.y < v1.y || v1.y == v2.y {
        EdgeRounding(v0, v1, p);
      } else {
        EdgeRounding(v1, v2, p);
      }
    }
  }

  /** Coordinates for which every intermediate value of the fill fits its variable. If the triangle is
      not flat, the row after the last one must exist, and its two upper vertices must not be on the
      lowest row. */
  ghost predicate Drawable(v0: Pixel, v1: Pixel, v2: Pixel) {
    && OnDevice(v0) && OnDevice(v1) && OnDevice(v2)
    && var (a, b, c) := SortByY(v0, v1, v2);
       a.y < c.y ==>
         && Max3(v0.x, v1.x, v2.x) - Min3(v0.x, v1.x, v2.x) < 0x8000 && c.y - a.y < 0x8000
         && c.y < 0x7FFF && -0x8000 < b.y
  }

  /** Number of pixel writes of a fill: one for each pixel of each row that is drawn. */
  function FillSize(v0: Pixel, v1: Pixel, v2: Pixel): nat {
    var (a, b, c) := SortByY(v0, v1, v2);
    if a.y == c.y then RowWrites(RowWidth(a, b, c, a.y)) else PixelsAbove(a, b, c, c.y + 1)
  }

  /** The drawn fill has as many pixels as there are writes, so that none is written twice. */
  lemma FillPixels(v0: Pixel, v1: Pixel, v2: Pixel) returns (s: set<Pixel>)
    ensures forall p :: p in s <==> InDrawnFill(v0, v1, v2, p)
    ensures |s| == FillSize(v0, v1, v2)
  {
    var (a, b, c) := SortByY(v0, v1, v2);
    if a.y == c.y {
      s := {};
      if RowWidth(a, b, c, a.y) < 0x7FFF {
        s := RowSet(a.y, Min3(a.x, b.x, c.x), Max3(a.x, b.x, c.x));
      }
    } else {
      s := PixelsAboveSet(a, b, c, c.y + 1);
    }
  }

  lemma PixelsAboveSet(v0: Pixel, v1: Pixel, v2: Pixel, y: int) returns (s: set<Pixel>)
    requires Sorted(v0, v1, v2) && v0.y < v2.y && v0.y <= y <= v2.y + 1
    ensures forall p :: p in s <==> p.y < y && InSortedDrawn(v0, v1, v2, p)
    ensures |s| == PixelsAbove(v0, v1, v2, y)
    decreases y - v0.y
  {
    hide InSortedDrawn, RowWidth;
    s := {};
    NothingAbove(v0, v1, v2);
    if v0.y < y {
      var above := PixelsAboveSet(v0, v1, v2, y - 1);
      var row := FillRow(v0, v1, v2, y - 1);
      hide PixelsAbove;
      s := above + row;
      assert above !! row;
    }
  }

  lemma NothingAbove(v0: Pixel, v1: Pixel, v2: Pixel)
    requires Sorted(v0, v1, v2) && v0.y < v2.y
    ensures forall p :: InSortedDrawn(v0, v1, v2, p) ==> v0.y <= p.y
    ensures PixelsAbove(v0, v1, v2, v0.y) == 0
  {
    hide SpanEnds;
  }

  lemma FillRow(v0: Pixel, v1: Pixel, v2: Pixel, y: int) returns (row: set<Pixel>)
    requires Sorted(v0, v1, v2) && v0.y < v2.y && v0.y <= y <= v2.y
    ensures forall p :: p in row <==> p.y == y && InSortedDrawn(v0, v1, v2, p)
    ensures |row| == PixelsAbove(v0, v1, v2, y + 1) - PixelsAbove(v0, v1, v2, y)
  {
    var (a, b) := SpanEnds(v0, v1, v2, y);
    hide SpanEnds;
    row := {};
    if Max(a, b) - Min(a, b) < 0x7FFF {
      row := RowSet(y, Min(a, b), Max(a, b));
    }
  }

  ghost predicate RowsDrawn(before: set<Pixel>, now: set<Pixel>, v0: Pixel, v1: Pixel, v2: Pixel, y: int)
    requires Sorted(v0, v1, v2)
  {
    forall p :: p in now <==> p in before || (p.y < y && InSortedDrawn(v0, v1, v2, p))
  }

  /** Drawing the span of row y completes the rows below y + 1. */
  lemma RowAdded(before: set<Pixel>, was: set<Pixel>, now: set<Pixel>, v0: Pixel, v1: Pixel, v2: Pixel,
                 y: int, a: int, b: int)
    requires Sorted(v0, v1, v2) && v0.y < v2.y && v0.y <= y <= v2.y
    requires RowsDrawn(before, was, v0, v1, v2, y)
    requires (a, b) == SpanEnds(v0, v1, v2, y)
    requires forall p :: p in now <==> p in was || InDrawnSpan(a, b, y, p)
    ensures RowsDrawn(before, now, v0, v1, v2, y + 1)
    ensures PixelsAbove(v0, v1, v2, y + 1) == PixelsAbove(v0, v1, v2, y) + RowWrites(Max(a, b) - Min(a, b))
  {
  }

  predicate InDrawnSpan(a: int, b: int, y: int, p: Pixel) {
    p.y == y && Min(a, b) <= p.x <= Max(a, b) && Max(a, b) - Min(a, b) < 0x7FFF
  }

  /** Between two rows the crossing of a slanted edge does not get to its far end, and it has stayed at
      its near end on the rows before if it is there. */
  lemma CrossingInside(w: int, h: int, d: int)
    requires 0 <= h < d
    ensures w > 0 ==> 0 <= TruncDiv(w * h, d) < w
    ensures w < 0 ==> w < TruncDiv(w * h, d) <= 0
    ensures w == 0 ==> TruncDiv(w * h, d) == 0
  {
    var c := TruncDiv(w * h, d);
    TruncDivBounds(w * h, d);
    PartWay(w, h, d);
    assert w * d - w * h == w * (d - h);
    if w > 0 {
      MulMono(1, 1, w, d - h);
    } else if w < 0 {
      MulMono(1, 1, -w, d - h);
      assert -w * (d - h) == -(w * (d - h));
    }
  }

  lemma CrossingStays(w: int, g: int, h: int, d: int)
    requires 0 <= g <= h < d && TruncDiv(w * h, d) == 0
    ensures TruncDiv(w * g, d) == 0
  {
    var m := Abs(w);
    MulMono(m, g, m, h);
    assert w * h == m * h || w * h == -(m * h);
    assert w * g == m * g || w * g == -(m * g);
    SmallQuotient(m * h, d);
    SmallQuotient(m * g, d);
  }

  lemma SmallQuotient(n: int, d: int)
    requires 0 <= n && 0 < d
    ensures TruncDiv(n, d) == 0 || TruncDiv(-n, d) == 0 ==> n < d
    ensures n < d ==> TruncDiv(n, d) == 0 && TruncDiv(-n, d) == 0
  {
    Quotient(n, d);
    assert TruncDiv(n, d) == n / d && TruncDiv(-n, d) == -(n / d);
  }

  lemma Quotient(n: int, d: int)
    requires 0 <= n && 0 < d
    ensures n / d == 0 <==> n < d
  {
    if n < d {
      DivModUnique(n, d, 0, n);
    } else {
      assert n == d * (n / d) + n % d;
    }
  }

  /** If any row is as wide as the coordinates of the vertices allow, so is the row of the middle
      vertex. */
  lemma FullRowIsMiddle(v0: Pixel, v1: Pixel, v2: Pixel, y: int)
    requires Sorted(v0, v1, v2) && v0.y <= y <= v2.y
    requires 0 < RowWidth(v0, v1, v2, y) == Max3(v0.x, v1.x, v2.x) - Min3(v0.x, v1.x, v2.x)
    ensures RowWidth(v0, v1, v2, v1.y) == RowWidth(v0, v1, v2, y)
  {
    if v0.y == v2.y || y == v1.y {
    } else if y < v1.y {
      CrossingInside(v1.x - v0.x, y - v0.y, v1.y - v0.y);
      CrossingInside(v2.x - v0.x, y - v0.y, v2.y - v0.y);
      assert false;
    } else if y < v2.y {
      LowerRowIsMiddle(v0, v1, v2, y);
    } else {
      EdgeRange(v1, v2, y);
      EdgeRange(v0, v2, y);
      assert false;
    }
  }

  lemma LowerRowIsMiddle(v0: Pixel, v1: Pixel, v2: Pixel, y: int)
    requires Sorted(v0, v1, v2) && v1.y < y < v2.y
    requires 0 < RowWidth(v0, v1, v2, y) == Max3(v0.x, v1.x, v2.x) - Min3(v0.x, v1.x, v2.x)
    ensures RowWidth(v0, v1, v2, v1.y) == RowWidth(v0, v1, v2, y)
  {
    EdgeRange(v1, v2, v1.y);
    CrossingInside(v2.x - v1.x, y - v1.y, v2.y - v1.y);
    CrossingInside(v2.x - v0.x, y - v0.y, v2.y - v0.y);
    hide TruncDiv;
    if TruncDiv((v2.x - v0.x) * (y - v0.y), v2.y - v0.y) == 0 {
      CrossingStays(v2.x - v0.x, v1.y - v0.y, y - v0.y, v2.y - v0.y);
    }
  }

  function MiddleWidth(v0: Pixel, v1: Pixel, v2: Pixel): nat {
    var (a, b, c) := SortByY(v0, v1, v2);
    RowWidth(a, b, c, b.y)
  }

  /** A triangle is drawn completely if and only if the row of its middle vertex has fewer than 32768
      pixels. */
  lemma FillCompleteIff(v0: Pixel, v1: Pixel, v2: Pixel)
    requires Drawable(v0, v1, v2)
    ensures (forall p :: InDrawnFill(v0, v1, v2, p) <==> InFill(v0, v1, v2, p)) <==> MiddleWidth(v0, v1, v2) < 0x7FFF
  {
    var (a, b, c) := SortByY(v0, v1, v2);
    if MiddleWidth(v0, v1, v2) < 0x7FFF {
      forall p | InFill(v0, v1, v2, p)
        ensures InDrawnFill(v0, v1, v2, p)
      {
        NoFullRow(a, b, c, p.y);
      }
    } else {
      FillBox(v0, v1, v2, b);
      assert InFill(v0, v1, v2, b) && !InDrawnFill(v0, v1, v2, b);
    }
  }

  lemma NoFullRow(v0: Pixel, v1: Pixel, v2: Pixel, y: int)
    requires Sorted(v0, v1, v2) && v0.y <= y <= v2.y && RowWidth(v0, v1, v2, v1.y) < 0x7FFF
    requires v0.y < v2.y ==> Max3(v0.x, v1.x, v2.x) - Min3(v0.x, v1.x, v2.x) < 0x8000
    ensures RowWidth(v0, v1, v2, y) < 0x7FFF
  {
    if v0.y < v2.y {
      SpanInBox(v0, v1, v2, y);
      hide SpanEnds;
      if RowWidth(v0, v1, v2, y) == 0x7FFF {
        FullRowIsMiddle(v0, v1, v2, y);
      }
    }
  }

  /** The running sum of the slope after k rows, and that it and its next value fit int32. */
  lemma RunningSum(dx: int, k: int)
    requires -0x8000 < dx < 0x8000 && 0 <= k <= 0x8000
    ensures dx * (k + 1) == dx * k + dx
    ensures -0x4000_0000 < dx * k < 0x4000_0000
  {
    var m := Abs(dx);
    MulMono(m, k, m, 0x8000);
    MulMono(0x8000, m, 0x8000, 0x7FFF);
    assert dx * k == m * k || dx * k == -(m * k);
  }

  /** Whether the loop over the upper rows is entered, with its last row computed in int16. */
  predicate UpperLoopRuns(y0: int16, y1: int16, y2: int16) {
    y0 <= if y1 == y2 then y1 else ToInt16(y1 - 1)
  }

  /** The upper loop, which divides by y1 - y0, runs with a zero divisor in one case only: the
      flat-topped triangle on the lowest representable row, whose last row wraps around. */
  lemma UpperDivisor(y0: int16, y1: int16, y2: int16)
    requires y0 <= y1 <= y2 && y0 < y2
    ensures UpperLoopRuns(y0, y1, y2) && y1 - y0 == 0 <==> y0 == -0x8000 && y1 == -0x8000
  {
    assert ToInt16(-0x8001) == 0x7FFF;
    assert y1 > -0x8000 ==> ToInt16(y1 - 1) == y1 - 1;
  }
}
