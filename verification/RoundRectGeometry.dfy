/** The pixels of rounded rectangles. */
module RoundRectGeometry {
  import opened MachineInts
  import opened Raster
  import opened CircleGeometry
  import opened CircleWalk

  /** The outline of a rounded rectangle is the circle pulled apart to the rectangle's size; with
      square corners it is the border of the rectangle. */
  predicate OnRoundRect(x: int, y: int, w: int, h: int, r: int, p: Pixel) {
    if r == 0 then
      x <= p.x < x + w && y <= p.y < y + h && (p.x == x || p.x == x + w - 1 || p.y == y || p.y == y + h - 1)
    else
      OnCircle(r, Stretch(p.x, x + r, x + w - r - 1), Stretch(p.y, y + r, y + h - r - 1))
  }

  /** A filled rounded rectangle is the disc pulled apart. */
  predicate InRoundRect(x: int, y: int, w: int, h: int, r: int, p: Pixel) {
    InDisc(r, Stretch(p.x, x + r, x + w - r - 1), Stretch(p.y, y + r, y + h - r - 1))
  }

  /** At the size of a circle they are the circle and the disc. */
  lemma RoundRectIsCircle(x: int, y: int, r: int, p: Pixel)
    requires 0 <= r
    ensures OnRoundRect(x, y, 2 * r + 1, 2 * r + 1, r, p) <==> OnCircle(r, p.x - (x + r), p.y - (y + r))
    ensures InRoundRect(x, y, 2 * r + 1, 2 * r + 1, r, p) <==> InDisc(r, p.x - (x + r), p.y - (y + r))
  {
    if r == 0 {
      CircleStart(0, p.x - x, p.y - y);
      DiscCoverage(0, p.x - x, p.y - y);
      CircleIsRim(0, Min(Abs(p.x - x), Abs(p.y - y)), Max(Abs(p.x - x), Abs(p.y - y)));
    }
  }

  /** The outline is part of the filled figure, which is part of the rectangle. */
  lemma RoundRectNested(x: int, y: int, w: int, h: int, r: int, p: Pixel)
    requires 0 <= r && 2 * r + 1 <= w && 2 * r + 1 <= h
    ensures OnRoundRect(x, y, w, h, r, p) ==> InRoundRect(x, y, w, h, r, p)
    ensures InRoundRect(x, y, w, h, r, p) ==> x <= p.x < x + w && y <= p.y < y + h
  {
    DiscCoverage(r, Stretch(p.x, x + r, x + w - r - 1), Stretch(p.y, y + r, y + h - r - 1));
  }

  /** The coordinates that the program computes from those of the rectangle are in int16. */
  predicate HasRoundRectMargin(x: int, y: int, w: int, h: int, r: int) {
    && 0 <= w && 0 <= h && FitsInt16(w - 2 * r) && FitsInt16(h - 2 * r)
    && FitsInt16(x + w - 1) && FitsInt16(x + r) && FitsInt16(x + w - 1 - r)
    && FitsInt16(y + h - 1) && FitsInt16(y + r) && FitsInt16(y + h - 1 - r)
  }

  predicate OnEdges(x: int, y: int, w: int, h: int, r: int, p: Pixel) {
    || (x + r <= p.x < x + w - r && (p.y == y || p.y == y + h - 1))
    || (y + r <= p.y < y + h - r && (p.x == x || p.x == x + w - 1))
  }

  predicate OnUpperCorners(x: int, y: int, w: int, h: int, r: int, p: Pixel) {
    || OnArc(r, 1, p.x - (x + r), p.y - (y + r))
    || OnArc(r, 2, p.x - (x + w - r - 1), p.y - (y + r))
  }

  predicate OnLowerCorners(x: int, y: int, w: int, h: int, r: int, p: Pixel) {
    || OnArc(r, 4, p.x - (x + w - r - 1), p.y - (y + h - r - 1))
    || OnArc(r, 8, p.x - (x + r), p.y - (y + h - r - 1))
  }

  predicate OnCorners(x: int, y: int, w: int, h: int, r: int, p: Pixel) {
    OnUpperCorners(x, y, w, h, r, p) || OnLowerCorners(x, y, w, h, r, p)
  }

  /** The four edges and the four arcs make up the outline. */
  lemma RoundRectParts(x: int, y: int, w: int, h: int, r: int, p: Pixel)
    requires 0 <= r && 2 * r + 1 <= w && 2 * r + 1 <= h
    ensures OnRoundRect(x, y, w, h, r, p) <==> OnEdges(x, y, w, h, r, p) || OnCorners(x, y, w, h, r, p)
  {
    if Stretch(p.x, x + r, x + w - r - 1) == 0 || Stretch(p.y, y + r, y + h - r - 1) == 0 {
      RoundRectMiddle(x, y, w, h, r, p);
    } else {
      RoundRectCorner(x, y, w, h, r, p);
    }
  }

  /** In the middle stripes only the edges count; the arcs meet them there at radius 1. */
  lemma RoundRectMiddle(x: int, y: int, w: int, h: int, r: int, p: Pixel)
    requires 0 <= r && 2 * r + 1 <= w && 2 * r + 1 <= h
    requires Stretch(p.x, x + r, x + w - r - 1) == 0 || Stretch(p.y, y + r, y + h - r - 1) == 0
    ensures OnRoundRect(x, y, w, h, r, p) <==> OnEdges(x, y, w, h, r, p)
    ensures OnCorners(x, y, w, h, r, p) ==> OnEdges(x, y, w, h, r, p)
  {
    hide OnArc, OnCircle;
    CircleOnAxis(r, Stretch(p.x, x + r, x + w - r - 1), Stretch(p.y, y + r, y + h - r - 1));
    ArcInMiddle(r, 1, p.x - (x + r), p.y - (y + r));
    ArcInMiddle(r, 2, p.x - (x + w - r - 1), p.y - (y + r));
    ArcInMiddle(r, 4, p.x - (x + w - r - 1), p.y - (y + h - r - 1));
    ArcInMiddle(r, 8, p.x - (x + r), p.y - (y + h - r - 1));
  }

  lemma ArcInMiddle(r: int, corner: bv8, dx: int, dy: int)
    requires 0 <= r && corner in {1, 2, 4, 8}
    ensures OnArc(r, corner, dx, dy) ==>
      && (if corner == 1 || corner == 8 then dx <= 0 else 0 <= dx)
      && (if corner == 1 || corner == 2 then dy <= 0 else 0 <= dy)
      && (dx == 0 || dy == 0 ==> Mirrors(0, r, dx, dy))
  {
    CornerBits(dx, dy);
    CircleOnAxis(r, dx, dy);
  }

  /** In the four corners the pixel is on the outline if it is on the arc of that corner. */
  lemma RoundRectCorner(x: int, y: int, w: int, h: int, r: int, p: Pixel)
    requires 0 <= r && 2 * r + 1 <= w && 2 * r + 1 <= h
    requires Stretch(p.x, x + r, x + w - r - 1) != 0 && Stretch(p.y, y + r, y + h - r - 1) != 0
    ensures OnRoundRect(x, y, w, h, r, p) <==> OnCorners(x, y, w, h, r, p)
    ensures !OnEdges(x, y, w, h, r, p)
  {
    var sx, sy := Stretch(p.x, x + r, x + w - r - 1), Stretch(p.y, y + r, y + h - r - 1);
    CornerBits(p.x - (x + r), p.y - (y + r));
    CornerBits(p.x - (x + w - r - 1), p.y - (y + r));
    CornerBits(p.x - (x + w - r - 1), p.y - (y + h - r - 1));
    CornerBits(p.x - (x + r), p.y - (y + h - r - 1));
    ArcAtCorner(r, 1, p.x - (x + r), p.y - (y + r), sx, sy);
    ArcAtCorner(r, 2, p.x - (x + w - r - 1), p.y - (y + r), sx, sy);
    ArcAtCorner(r, 4, p.x - (x + w - r - 1), p.y - (y + h - r - 1), sx, sy);
    ArcAtCorner(r, 8, p.x - (x + r), p.y - (y + h - r - 1), sx, sy);
    if r == 0 {
      CircleOnAxis(0, sx, sy);
    }
  }

  /** On the arc's side of both axes a corner pixel's stretched offset is its offset from the
      centre of the arc. */
  lemma ArcAtCorner(r: int, corner: bv8, dx: int, dy: int, sx: int, sy: int)
    requires sx != 0 && sy != 0 && (InCorner(corner, dx, dy) ==> sx == dx && sy == dy)
    ensures OnArc(r, corner, dx, dy) <==> InCorner(corner, dx, dy) && OnCircle(r, sx, sy)
  {
  }

  lemma CornerBits(dx: int, dy: int)
    ensures InCorner(1, dx, dy) <==> dx <= 0 && dy <= 0
    ensures InCorner(2, dx, dy) <==> 0 <= dx && dy <= 0
    ensures InCorner(4, dx, dy) <==> 0 <= dx && 0 <= dy
    ensures InCorner(8, dx, dy) <==> dx <= 0 && 0 <= dy
  {
  }

  /** The rectangle between the half-discs, and the half-discs. */
  predicate InFillParts(x: int, y: int, w: int, h: int, r: int, p: Pixel) {
    || InRect(x + r, y, w - 2 * r, h, p)
    || InPulledSide(r, 1, p.x - (x + w - r - 1), p.y - (y + r), h - 2 * r - 1)
    || InPulledSide(r, 2, p.x - (x + r), p.y - (y + r), h - 2 * r - 1)
  }

  lemma MiddleFilled(x: int, y: int, w: int, h: int, r: int, p: Pixel)
    requires InRect(x + r, y, w - 2 * r, h, p)
    ensures InFillParts(x, y, w, h, r, p)
  {
  }

  /** Together they make up the filled figure. */
  lemma RoundRectFillParts(x: int, y: int, w: int, h: int, r: int, p: Pixel)
    requires 0 <= r && 2 * r + 1 <= w && 2 * r + 1 <= h
    ensures InRoundRect(x, y, w, h, r, p) <==> InFillParts(x, y, w, h, r, p)
  {
    var dy, delta := p.y - (y + r), h - 2 * r - 1;
    assert Stretch(p.y, y + r, y + h - r - 1) == Stretch(dy, 0, delta);
    PulledIsStretched(r, 1, p.x - (x + w - r - 1), dy, delta);
    PulledIsStretched(r, 2, p.x - (x + r), dy, delta);
    DiscStart(r, 0, Stretch(dy, 0, delta));
    hide InPulledSide;
  }

  /** Offset of position t of n from the nearer of the two centres at distance r from the ends, and 0
      between them. With n == 2 * r there is nothing between them, not even the centres. */
  function Fold(t: int, n: int, r: int): int {
    if t < r then t - r else if t < n - r then 0 else t - (n - r - 1)
  }

  /** From width and height 2r on the fill is the disc pulled apart, or closed up by one row or column. */
  lemma FillIsFolded(x: int, y: int, w: int, h: int, r: int, p: Pixel)
    requires 0 <= r && 2 * r <= h && ((2 <= r && 2 * r <= w) || 2 * r + 1 <= w)
    ensures InFillParts(x, y, w, h, r, p) <==> InDisc(r, Fold(p.x - x, w, r), Fold(p.y - y, h, r))
  {
    var dy, delta := p.y - (y + r), h - 2 * r - 1;
    hide InPulledSide, InDisc;
    FoldedSide(r, 1, p.x - (x + w - r - 1), dy, delta);
    FoldedSide(r, 2, p.x - (x + r), dy, delta);
    CentreColumn(r, Fold(p.y - y, h, r));
    assert OnSide(1, p.x - (x + w - r - 1)) <==> 0 <= p.x - (x + w - r - 1);
    assert OnSide(2, p.x - (x + r)) <==> p.x - (x + r) <= 0;
    if r == 1 {
      DiscAtOne(p.x - (x + w - r - 1), Fold(p.y - y, h, r));
      DiscAtOne(p.x - (x + r), Fold(p.y - y, h, r));
    }
  }

  lemma FoldedSide(r: int, corner: bv8, dx: int, dy: int, delta: int)
    requires 0 <= r && -1 <= delta
    ensures InPulledSide(r, corner, dx, dy, delta) <==> InSide(r, corner, dx, Fold(dy + r, delta + 2 * r + 1, r))
  {
    if 0 <= delta {
      PulledIsStretched(r, corner, dx, dy, delta);
    } else {
      ShortenedIsCommon(r, corner, dx, dy, delta);
      if dy < 0 {
        if InDisc(r, dx, dy) { DiscCloses(r, dx, dy, dy + 1); }
      } else {
        if InDisc(r, dx, dy + 1) { DiscCloses(r, dx, dy + 1, dy); }
      }
    }
    hide InDisc;
  }

  lemma CentreColumn(r: int, dy: int)
    requires 0 <= r
    ensures InDisc(r, 0, dy) <==> Abs(dy) <= r
  {
    DiscStart(r, 0, dy);
  }

  lemma DiscAtOne(dx: int, dy: int)
    ensures InDisc(1, dx, dy) <==> Abs(dx) + Abs(dy) <= 1
  {
    DiscCoverage(1, dx, dy);
  }

  /** At every height up to 2r the sides of the fill are what discs about the upper and the lower corner
      centres have in common. */
  lemma LowFill(x: int, y: int, w: int, h: int, r: int, p: Pixel)
    requires 0 <= r && h <= 2 * r
    ensures var up, down, left, right := p.y - (y + r), p.y - (y + h - r - 1), p.x - (x + r), p.x - (x + w - r - 1);
      InFillParts(x, y, w, h, r, p) <==>
        || (x + r <= p.x < x + w - r && y <= p.y < y + h)
        || ((0 < right || (r == 1 && right == 0)) && InDisc(r, right, up) && InDisc(r, right, down))
        || ((left < 0 || (r == 1 && left == 0)) && InDisc(r, left, up) && InDisc(r, left, down))
  {
    hide InDisc;
    ShortenedIsCommon(r, 1, p.x - (x + w - r - 1), p.y - (y + r), h - 2 * r - 1);
    ShortenedIsCommon(r, 2, p.x - (x + r), p.y - (y + r), h - 2 * r - 1);
    hide InPulledSide;
  }

  /** At every size the outline consists of two horizontal and two vertical edges and a quarter of the
      circle about each of the four centres, without the points on its axes unless the radius is 1. */
  lemma OutlineParts(x: int, y: int, w: int, h: int, r: int, p: Pixel)
    ensures var left, right, up, down := p.x - (x + r), p.x - (x + w - r - 1), p.y - (y + r), p.y - (y + h - r - 1);
      OnEdges(x, y, w, h, r, p) || OnCorners(x, y, w, h, r, p) <==>
        || (x + r <= p.x < x + w - r && (p.y == y || p.y == y + h - 1))
        || (y + r <= p.y < y + h - r && (p.x == x || p.x == x + w - 1))
        || (((left < 0 && up < 0) || (r == 1 && left <= 0 && up <= 0)) && OnCircle(r, left, up))
        || (((0 < right && up < 0) || (r == 1 && 0 <= right && up <= 0)) && OnCircle(r, right, up))
        || (((0 < right && 0 < down) || (r == 1 && 0 <= right && 0 <= down)) && OnCircle(r, right, down))
        || (((left < 0 && 0 < down) || (r == 1 && left <= 0 && 0 <= down)) && OnCircle(r, left, down))
  {
    hide OnCircle;
    CornerBits(p.x - (x + r), p.y - (y + r));
    CornerBits(p.x - (x + w - r - 1), p.y - (y + r));
    CornerBits(p.x - (x + w - r - 1), p.y - (y + h - r - 1));
    CornerBits(p.x - (x + r), p.y - (y + h - r - 1));
    hide InCorner;
  }

  /** From width and height 2r on the outline is the circle pulled apart, or closed up. */
  lemma OutlineIsFolded(x: int, y: int, w: int, h: int, r: int, p: Pixel)
    requires 2 <= r && 2 * r <= w && 2 * r <= h
    ensures OnEdges(x, y, w, h, r, p) || OnCorners(x, y, w, h, r, p) <==>
      OnCircle(r, Fold(p.x - x, w, r), Fold(p.y - y, h, r))
  {
    OutlineParts(x, y, w, h, r, p);
    CircleOnAxis(r, Fold(p.x - x, w, r), Fold(p.y - y, h, r));
    hide OnEdges, OnCorners, OnCircle;
  }

  /** A radius that is too large for the figure to be a circle pulled apart, but smaller than width
      and height, still does not lead out of the rectangle; and the fill keeps to its rows with any
      radius. */
  lemma RoundRectInside(x: int, y: int, w: int, h: int, r: int, p: Pixel)
    requires 0 <= r
    ensures InFillParts(x, y, w, h, r, p) ==> y <= p.y < y + h && (r < w ==> x <= p.x < x + w)
    ensures r < w && r < h && (OnEdges(x, y, w, h, r, p) || OnCorners(x, y, w, h, r, p)) ==> InRect(x, y, w, h, p)
  {
    FillInside(x, y, w, h, r, p);
    if r < w && r < h {
      OutlineInside(x, y, w, h, r, p);
    }
    hide InFillParts, OnEdges, OnCorners;
  }

  lemma FillInside(x: int, y: int, w: int, h: int, r: int, p: Pixel)
    requires 0 <= r
    ensures InFillParts(x, y, w, h, r, p) ==> y <= p.y < y + h && (r < w ==> x <= p.x < x + w)
  {
    hide InPulledSide;
    SideInside(r, 1, p.x - (x + w - r - 1), p.y - (y + r), h - 2 * r - 1);
    SideInside(r, 2, p.x - (x + r), p.y - (y + r), h - 2 * r - 1);
  }

  lemma OutlineInside(x: int, y: int, w: int, h: int, r: int, p: Pixel)
    requires 0 <= r < w && r < h
    ensures OnEdges(x, y, w, h, r, p) || OnCorners(x, y, w, h, r, p) ==> InRect(x, y, w, h, p)
  {
    hide OnArc;
    ArcInside(r, 1, p.x - (x + r), p.y - (y + r));
    ArcInside(r, 2, p.x - (x + w - r - 1), p.y - (y + r));
    ArcInside(r, 4, p.x - (x + w - r - 1), p.y - (y + h - r - 1));
    ArcInside(r, 8, p.x - (x + r), p.y - (y + h - r - 1));
  }

  lemma SideInside(r: int, corner: bv8, dx: int, dy: int, delta: int)
    requires 0 <= r && corner in {1, 2}
    ensures InPulledSide(r, corner, dx, dy, delta) ==>
      Abs(dx) <= r && -r <= dy <= r + delta && if corner == 1 then 0 <= dx else dx <= 0
  {
    hide InPulledSide;
    if InPulledSide(r, corner, dx, dy, delta) {
      SideBound(r, corner, dx, dy, delta);
    }
  }

  lemma ArcInside(r: int, corner: bv8, dx: int, dy: int)
    requires 0 <= r && corner in {1, 2, 4, 8}
    ensures OnArc(r, corner, dx, dy) ==>
      && (if corner == 1 || corner == 8 then -r <= dx <= 0 else 0 <= dx <= r)
      && (if corner == 1 || corner == 2 then -r <= dy <= 0 else 0 <= dy <= r)
  {
    CornerBits(dx, dy);
    if OnArc(r, corner, dx, dy) {
      ArcBound(r, corner, dx, dy);
    }
  }

  /** What the program draws, with coordinates, sizes and lengths in 16 bits. */
  predicate OnWrappedEdges(x: int16, y: int16, w: int16, h: int16, r: int16, p: Pixel) {
    || InWrappedRect(ToInt16(x + r), y, ToInt16(w - 2 * r), 1, p)
    || InWrappedRect(ToInt16(x + r), ToInt16(y + h - 1), ToInt16(w - 2 * r), 1, p)
    || InWrappedRect(x, ToInt16(y + r), 1, ToInt16(h - 2 * r), p)
    || InWrappedRect(ToInt16(x + w - 1), ToInt16(y + r), 1, ToInt16(h - 2 * r), p)
  }

  predicate OnWrappedCorners(x: int16, y: int16, w: int16, h: int16, r: int16, p: Pixel) {
    || p in CornerPixels(ToInt16(x + r), ToInt16(y + r), 1, First(r))
    || p in CornerPixels(ToInt16(x + w - r - 1), ToInt16(y + r), 2, First(r))
    || p in CornerPixels(ToInt16(x + w - r - 1), ToInt16(y + h - r - 1), 4, First(r))
    || p in CornerPixels(ToInt16(x + r), ToInt16(y + h - r - 1), 8, First(r))
  }

  predicate InWrappedFill(x: int16, y: int16, w: int16, h: int16, r: int16, p: Pixel) {
    || InWrappedRect(ToInt16(x + r), y, ToInt16(w - 2 * r), h, p)
    || InSidePixels(ToInt16(x + w - r - 1), ToInt16(y + r), 1, ToInt16(h - 2 * r - 1), First(r), p)
    || InSidePixels(ToInt16(x + r), ToInt16(y + r), 2, ToInt16(h - 2 * r - 1), First(r), p)
  }

  lemma MarginFits(x: int16, y: int16, w: int16, h: int16, r: int16)
    requires 0 <= r && HasRoundRectMargin(x, y, w, h, r)
    ensures ToInt16(x + r) == x + r && ToInt16(x + w - 1) == x + w - 1 && ToInt16(x + w - r - 1) == x + w - r - 1
    ensures ToInt16(y + r) == y + r && ToInt16(y + h - 1) == y + h - 1 && ToInt16(y + h - r - 1) == y + h - r - 1
    ensures ToInt16(w - 2 * r) == w - 2 * r && ToInt16(h - 2 * r) == h - 2 * r
    ensures FitsInt16(h - 2 * r - 1) ==> ToInt16(h - 2 * r - 1) == h - 2 * r - 1
  {
    Fits(x + r);
    Fits(x + w - 1);
    Fits(x + w - r - 1);
    Fits(y + r);
    Fits(y + h - 1);
    Fits(y + h - r - 1);
    Fits(w - 2 * r);
    Fits(h - 2 * r);
  }

  /** With all coordinates in range nothing wraps around. */
  lemma PlainEdges(x: int16, y: int16, w: int16, h: int16, r: int16, p: Pixel)
    requires 0 <= r && HasRoundRectMargin(x, y, w, h, r)
    ensures OnWrappedEdges(x, y, w, h, r, p) <==> OnEdges(x, y, w, h, r, p)
  {
    hide ToInt16, InWrappedRect;
    MarginFits(x, y, w, h, r);
    RectFits(x + r, y, w - 2 * r, 1);
    RectFits(x + r, y + h - 1, w - 2 * r, 1);
    RectFits(x, y + r, 1, h - 2 * r);
    RectFits(x + w - 1, y + r, 1, h - 2 * r);
  }

  lemma PlainCorners(x: int16, y: int16, w: int16, h: int16, r: int16, p: Pixel)
    requires SafeRadius(r) && HasRoundRectMargin(x, y, w, h, r)
    ensures OnWrappedCorners(x, y, w, h, r, p) <==> OnCorners(x, y, w, h, r, p)
  {
    CornersAreArcs(x, y, w, h, r, p);
    MarginFits(x, y, w, h, r);
    hide *;
    PlainCornersAt(x, y, w, h, r, p, ToInt16(x + r), ToInt16(y + r), ToInt16(x + w - r - 1), ToInt16(y + h - r - 1));
  }

  lemma PlainCornersAt(x: int16, y: int16, w: int16, h: int16, r: int16, p: Pixel,
                       left: int16, upper: int16, right: int16, lower: int16)
    requires SafeRadius(r) && HasRoundRectMargin(x, y, w, h, r)
    requires left == ToInt16(x + r) == x + r && upper == ToInt16(y + r) == y + r
    requires right == ToInt16(x + w - r - 1) == x + w - r - 1 && lower == ToInt16(y + h - r - 1) == y + h - r - 1
    ensures OnWrappedCorners(x, y, w, h, r, p) <==> OnFourArcs(x + r, y + r, x + w - r - 1, y + h - r - 1, r, p)
  {
    hide *;
    MarginAtCorners(x, y, w, h, r);
    FourCorners(left, upper, right, lower, r, p);
    WrappedCorners(x, y, w, h, r, p, left, upper, right, lower);
  }

  lemma CornersAreArcs(x: int, y: int, w: int, h: int, r: int, p: Pixel)
    ensures OnCorners(x, y, w, h, r, p) <==> OnFourArcs(x + r, y + r, x + w - r - 1, y + h - r - 1, r, p)
  {
    hide OnArc;
  }

  lemma WrappedCorners(x: int16, y: int16, w: int16, h: int16, r: int16, p: Pixel,
                       left: int16, upper: int16, right: int16, lower: int16)
    requires left == ToInt16(x + r) && upper == ToInt16(y + r)
    requires right == ToInt16(x + w - r - 1) && lower == ToInt16(y + h - r - 1)
    ensures OnWrappedCorners(x, y, w, h, r, p) <==>
      || p in CornerPixels(left, upper, 1, First(r))
      || p in CornerPixels(right, upper, 2, First(r))
      || p in CornerPixels(right, lower, 4, First(r))
      || p in CornerPixels(left, lower, 8, First(r))
  {
    hide CornerPixels, First, ToInt16;
  }

  predicate OnFourArcs(left: int, upper: int, right: int, lower: int, r: int, p: Pixel) {
    || OnArc(r, 1, p.x - left, p.y - upper)
    || OnArc(r, 2, p.x - right, p.y - upper)
    || OnArc(r, 4, p.x - right, p.y - lower)
    || OnArc(r, 8, p.x - left, p.y - lower)
  }

  lemma FourCorners(left: int16, upper: int16, right: int16, lower: int16, r: int16, p: Pixel)
    requires SafeRadius(r)
    requires HasCornerMargin(left, upper, r, 1) && HasCornerMargin(right, upper, r, 2)
    requires HasCornerMargin(right, lower, r, 4) && HasCornerMargin(left, lower, r, 8)
    ensures OnFourArcs(left, upper, right, lower, r, p) <==>
      || p in CornerPixels(left, upper, 1, First(r))
      || p in CornerPixels(right, upper, 2, First(r))
      || p in CornerPixels(right, lower, 4, First(r))
      || p in CornerPixels(left, lower, 8, First(r))
  {
    hide OnArc, CornerPixels, First, SafeRadius, HasCornerMargin;
    PlainCorner(left, upper, r, 1, p);
    PlainCorner(right, upper, r, 2, p);
    PlainCorner(right, lower, r, 4, p);
    PlainCorner(left, lower, r, 8, p);
  }

  lemma MarginAtCorners(x: int16, y: int16, w: int16, h: int16, r: int16)
    requires HasRoundRectMargin(x, y, w, h, r)
    ensures HasCornerMargin(x + r, y + r, r, 1) && HasCornerMargin(x + w - r - 1, y + r, r, 2)
    ensures HasCornerMargin(x + w - r - 1, y + h - r - 1, r, 4) && HasCornerMargin(x + r, y + h - r - 1, r, 8)
    ensures HasSideMargin(x + w - r - 1, y + r, r, 1, h - 2 * r - 1) && HasSideMargin(x + r, y + r, r, 2, h - 2 * r - 1)
  {
  }

  lemma PlainCorner(x0: int16, y0: int16, r: int16, corner: bv8, p: Pixel)
    requires SafeRadius(r) && HasCornerMargin(x0, y0, r, corner)
    ensures p in CornerPixels(x0, y0, corner, First(r)) <==> OnArc(r, corner, p.x - x0, p.y - y0)
  {
    hide OnArc, CornerPixels, OnDevice, Offset, HasCornerMargin;
    ArcsDrawn({}, x0, y0, r, corner);
    PlainArc(x0, y0, r, corner, p);
    assert p in {} + CornerPixels(x0, y0, corner, First(r)) <==> p in CornerPixels(x0, y0, corner, First(r));
  }

  lemma PlainFill(x: int16, y: int16, w: int16, h: int16, r: int16, p: Pixel)
    requires 0 <= r < 0x4000 && HasRoundRectMargin(x, y, w, h, r)
    ensures InWrappedFill(x, y, w, h, r, p) <==> InFillParts(x, y, w, h, r, p)
  {
    hide ToInt16, InWrappedRect, InSidePixels, InPulledSide, First, HasSideMargin, HasCornerMargin;
    MarginFits(x, y, w, h, r);
    MarginAtCorners(x, y, w, h, r);
    RectFits(x + r, y, w - 2 * r, h);
    PlainHalf(x + w - r - 1, y + r, r, 1, h - 2 * r - 1, p);
    PlainHalf(x + r, y + r, r, 2, h - 2 * r - 1, p);
  }

  lemma PlainHalf(x0: int16, y0: int16, r: int16, corner: bv8, delta: int16, p: Pixel)
    requires 0 <= r < 0x4000 && 2 * r + 1 + delta < 0x8000 && HasSideMargin(x0, y0, r, corner, delta)
    ensures InSidePixels(x0, y0, corner, delta, First(r), p) <==> InPulledSide(r, corner, p.x - x0, p.y - y0, delta)
  {
    hide InSidePixels, InPulledSide, OnDevice, Offset, Below, HasSideMargin;
    SidesAreFilled(x0, y0, r, corner, delta, p);
    PlainSide(x0, y0, r, corner, delta, p);
  }
}
