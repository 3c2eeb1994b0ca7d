/** What the midpoint loops write in 16-bit arithmetic, and when that is the circle. */
module CircleWalk {
  import opened MachineInts
  import opened Raster
  import opened CircleGeometry

  /** The variables of the loops. */
  datatype Stepper = Stepper(x: int16, y: int16, f: int16, ddFx: int16, ddFy: int16)

  function First(r: int16): Stepper {
    Stepper(0, r, ToInt16(1 - r), 1, ToInt16(-2 * r))
  }

  predicate Going(s: Stepper) {
    0 <= s.x < s.y
  }

  /** One iteration. */
  function Advance(s: Stepper): Stepper
    requires Going(s)
  {
    var (y, ddFy, f) := if s.f >= 0
      then (s.y - 1, ToInt16(s.ddFy + 2), ToInt16(s.f + ToInt16(s.ddFy + 2))) else (s.y, s.ddFy, s.f);
    Stepper(s.x + 1, y, ToInt16(f + ToInt16(s.ddFx + 2)), ToInt16(s.ddFx + 2), ddFy)
  }

  /** What drawCircle writes from there on. */
  function OctantPixels(x0: int16, y0: int16, s: Stepper): set<Pixel>
    decreases s.y - s.x
  {
    if !Going(s) then {} else var t := Advance(s); Octants(x0, y0, t.x, t.y) + OctantPixels(x0, y0, t)
  }

  function AxisPixels(x0: int16, y0: int16, r: int): set<Pixel> {
    {At(x0, y0, 0, r), At(x0, y0, 0, -r), At(x0, y0, r, 0), At(x0, y0, -r, 0)}
  }

  /** What drawCircleHelper writes from there on. */
  function CornerPixels(x0: int16, y0: int16, corner: bv8, s: Stepper): set<Pixel>
    decreases s.y - s.x
  {
    if !Going(s) then {} else var t := Advance(s); Corners(x0, y0, t.x, t.y, corner) + CornerPixels(x0, y0, corner, t)
  }

  /** The columns of one iteration of fillCircleHelper, their lengths in 16 bits. */
  predicate InColumns(x0: int16, y0: int16, x: int, y: int, corner: bv8, delta: int, p: Pixel) {
    || (corner & 1 != 0 && (|| InColumn(x0, y0, x, y, delta, p) || InColumn(x0, y0, y, x, delta, p)))
    || (corner & 2 != 0 && (|| InColumn(x0, y0, -x, y, delta, p) || InColumn(x0, y0, -y, x, delta, p)))
  }

  predicate InColumn(x0: int16, y0: int16, dx: int, h: int, delta: int, p: Pixel) {
    InWrappedRect(ToInt16(x0 + dx), ToInt16(y0 - h), 1, ToInt16(2 * h + 1 + delta), p)
  }

  /** What fillCircleHelper writes from there on. */
  predicate InSidePixels(x0: int16, y0: int16, corner: bv8, delta: int, s: Stepper, p: Pixel)
    decreases s.y - s.x
  {
    Going(s) &&
    (InColumns(x0, y0, Advance(s).x, Advance(s).y, corner, delta, p)
     || InSidePixels(x0, y0, corner, delta, Advance(s), p))
  }

  /** What fillCircle writes. */
  predicate InFilledCircle(x0: int16, y0: int16, r: int16, p: Pixel) {
    InColumn(x0, y0, 0, r, 0, p) || InSidePixels(x0, y0, 3, 0, First(r), p)
  }

  /** The radii for which the decision term stays in 16 bits. From 16385 on -2r is out of range, but its
      remainder still leads to the right sums; what matters is the decision term after the first step
      down, (s + 1)^2 - 3r + 2 where s is the square root of r rounded up. */
  predicate SafeRadius(r: int) {
    0 <= r <= 16556 || r == 16642 || r == 16643
  }

  /** The decision term without wrap-around. */
  function Decision(r: int, x: int, y: int): int {
    (x + 1) * (x + 1) + y * y - y - r * r
  }

  /** The variables are those of the midpoint algorithm, except that ddF_y is reduced to 16 bits. */
  ghost predicate Matches(r: int, s: Stepper) {
    && Midpoint(r, s.x, s.y, Decision(r, s.x, s.y), 2 * s.x + 1, -2 * s.y)
    && s.f == Decision(r, s.x, s.y) && s.ddFx == 2 * s.x + 1 && s.ddFy == ToInt16(-2 * s.y)
  }

  lemma FirstMatches(r: int16)
    requires 0 <= r
    ensures Matches(r, First(r))
  {
    MidpointStart(r);
    Fits(1 - r);
    assert Decision(r, 0, r) == 1 - r;
  }

  lemma Below16(v: int, w: int)
    ensures ToInt16(ToInt16(v) + w) == ToInt16(v + w)
  {
  }

  /** As long as the decision term stays in range the loop does the midpoint algorithm. */
  lemma AdvanceMatches(r: int, s: Stepper)
    requires SafeRadius(r) && Matches(r, s) && Going(s)
    ensures Matches(r, Advance(s)) && Octant(r, s.x, s.y, Advance(s).y)
  {
    var f := Decision(r, s.x, s.y);
    var y := if f >= 0 then s.y - 1 else s.y;
    DecisionStep(r, s.x, s.y);
    hide Midpoint, Octant, Decision, ToInt16, Advance, SafeRadius;
    MidpointStep(r, s.x, s.y, f, 2 * s.x + 1, -2 * s.y);
    DecisionInRange(r, s.x, s.y);
    DecisionInRange(r, s.x + 1, y);
    AdvanceSums(s);
    Fits(Decision(r, s.x + 1, y));
  }

  lemma DecisionStep(r: int, x: int, y: int)
    ensures Decision(r, x + 1, y) == Decision(r, x, y) + (2 * x + 3)
    ensures Decision(r, x + 1, y - 1) == Decision(r, x, y) + (-2 * y + 2) + (2 * x + 3)
  {
    assert (x + 2) * (x + 2) == (x + 1) * (x + 1) + 2 * x + 3;
    assert (y - 1) * (y - 1) == y * y - 2 * y + 1;
  }

  /** The sums of one iteration, whatever wraps around on the way. */
  lemma AdvanceSums(s: Stepper)
    requires Going(s) && s.ddFx == 2 * s.x + 1 < 0x7FFE && s.ddFy == ToInt16(-2 * s.y)
    ensures var t := Advance(s);
      && t.x == s.x + 1 && t.y == (if s.f >= 0 then s.y - 1 else s.y)
      && t.f == ToInt16(if s.f >= 0 then s.f + (-2 * s.y + 2) + (2 * s.x + 3) else s.f + (2 * s.x + 3))
      && t.ddFx == 2 * t.x + 1 && t.ddFy == ToInt16(-2 * t.y)
  {
    Fits(2 * s.x + 3);
    Below16(-2 * s.y, 2);
    ThreeSums(-2 * s.y, s.f, 2 * s.x + 3);
    hide ToInt16;
  }

  lemma ThreeSums(a: int, f: int, b: int)
    ensures ToInt16(ToInt16(f + ToInt16(ToInt16(a) + 2)) + b) == ToInt16(f + (a + 2) + b)
  {
    hide ToInt16;
    Below16(a, 2);
    Below16(a + 2, f);
    Below16(f + (a + 2), b);
  }

  lemma DecisionInRange(r: int, x: int, y: int)
    requires SafeRadius(r) && Midpoint(r, x, y, Decision(r, x, y), 2 * x + 1, -2 * y)
    ensures FitsInt16(Decision(r, x, y)) && 2 * x + 1 < 0x8000
  {
    MidpointBounds(r, x, y, Decision(r, x, y), 2 * x + 1, -2 * y);
    if x >= 0x4000 {
      MulMono(0x4000, 0x4000, x, x);
      MulMono(0x3FFF, 0x3FFE, y, y - 1);
      MulMono(r, r, 16643, 16643);
    }
    if 0x4000 < r && x <= y {
      LargeRadius(r, x, y);
    }
  }

  /** The few columns in which the term comes close to its lower bound. */
  lemma LargeRadius(r: int, x: int, y: int)
    requires SafeRadius(r) && 0x4000 < r && 0 <= x <= y <= r && r * r - x * x <= y * (y + 1)
    requires 2 * x + 1 - 2 * y <= Decision(r, x, y)
    ensures -0x8000 <= Decision(r, x, y)
  {
    if y == r {
      assert Decision(r, x, r) == (x + 1) * (x + 1) - r;
      MulMono(0, 0, x + 1, x + 1);
    } else if y == r - 1 {
      assert Decision(r, x, r - 1) == (x + 1) * (x + 1) - 3 * r + 2 && y * (y + 1) == r * r - r;
      var least := if r <= 16556 then 129 else 130;
      AtLeast(x, least);
      MulMono(least + 1, least + 1, x + 1, x + 1);
    } else if y == r - 2 {
      assert Decision(r, x, r - 2) == (x + 1) * (x + 1) - 5 * r + 6 && y * (y + 1) == r * r - 3 * r + 2;
      assert (x + 1) * (x + 1) == x * x + 2 * x + 1;
      AtLeast(x, if r <= 16556 then 222 else 224);
      if r > 16556 {
        MulMono(225, 225, x + 1, x + 1);
      }
    } else {
      MulMono(y, y + 1, r - 3, r - 2);
      assert (r - 3) * (r - 2) == r * r - 5 * r + 6;
      AtLeast(x, 287);
    }
  }

  lemma AtLeast(x: int, k: int)
    requires 0 <= x && 0 < k && (k - 1) * (k - 1) < x * x
    ensures k <= x
  {
    if x < k {
      MulMono(x, x, k - 1, k - 1);
    }
  }

  /** With such a radius drawCircle draws the circle. */
  lemma {:induction false} WalkDraws(before: set<Pixel>, now: set<Pixel>, x0: int16, y0: int16, r: int, s: Stepper)
    requires SafeRadius(r) && Matches(r, s) && 0 <= s.x && CircleDrawn(before, now, x0, y0, r, s.x)
    ensures forall p :: p in now + OctantPixels(x0, y0, s) <==>
      p in before || (OnDevice(p) && OnCircle(r, Offset(p.x, x0), Offset(p.y, y0)))
    decreases s.y - s.x
  {
    hide Decision, OnDevice, Offset, OnCircle, Octants;
    if Going(s) {
      var t := Advance(s);
      AdvanceMatches(r, s);
      CircleGrown(before, now, x0, y0, r, s.x, s.y, t.x, t.y);
      WalkDraws(before, now + Octants(x0, y0, t.x, t.y), x0, y0, r, t);
      assert now + OctantPixels(x0, y0, s) == now + Octants(x0, y0, t.x, t.y) + OctantPixels(x0, y0, t);
    } else {
      CircleFinished(before, now, x0, y0, r, s.x, s.y, Decision(r, s.x, s.y), 2 * s.x + 1, -2 * s.y);
    }
  }

  lemma {:induction false} WalkDrawsArcs(before: set<Pixel>, now: set<Pixel>, x0: int16, y0: int16, r: int, corner: bv8,
                                         s: Stepper)
    requires SafeRadius(r) && Matches(r, s) && 0 <= s.x && ArcDrawn(before, now, x0, y0, r, corner, s.x)
    ensures forall p :: p in now + CornerPixels(x0, y0, corner, s) <==>
      p in before || (OnDevice(p) && OnArc(r, corner, Offset(p.x, x0), Offset(p.y, y0)))
    decreases s.y - s.x
  {
    hide Decision, OnDevice, Offset, OnArc, Corners, InCorner;
    if Going(s) {
      var t := Advance(s);
      AdvanceMatches(r, s);
      forall p {
        CornersAreMirrors(x0, y0, t.x, t.y, corner, p);
      }
      ArcGrown(before, now, now + Corners(x0, y0, t.x, t.y, corner), x0, y0, r, corner, s.x, s.y, t.x, t.y);
      WalkDrawsArcs(before, now + Corners(x0, y0, t.x, t.y, corner), x0, y0, r, corner, t);
      assert now + CornerPixels(x0, y0, corner, s)
        == now + Corners(x0, y0, t.x, t.y, corner) + CornerPixels(x0, y0, corner, t);
    } else {
      ArcFinished(before, now, x0, y0, r, corner, s.x, s.y, Decision(r, s.x, s.y), 2 * s.x + 1, -2 * s.y);
    }
  }

  /** With radii and columns that fit fillCircleHelper draws the half-discs. */
  lemma {:induction false} WalkFills(x0: int16, y0: int16, r: int, corner: bv8, delta: int, s: Stepper, p: Pixel)
    requires 0 <= r <= 0x4000 && 2 * r + 1 + delta < 0x8000 && -0x8000 <= delta && Matches(r, s) && 0 <= s.x
    ensures InSidePixels(x0, y0, corner, delta, s, p)
        || (OnDevice(p) && InPulledSideUpTo(r, s.x, s.y, corner, Offset(p.x, x0), Below(p.y, y0), delta))
      <==> OnDevice(p) && InPulledSide(r, corner, Offset(p.x, x0), Below(p.y, y0), delta)
    decreases s.y - s.x
  {
    hide Decision, OnDevice, Offset, Below, InPulledSide, InPulledSideUpTo, InColumns;
    if Going(s) {
      var t := Advance(s);
      AdvanceMatches(r, s);
      PulledStep(r, s.x, s.y, t.y, corner, Offset(p.x, x0), Below(p.y, y0), delta);
      ColumnsAreSpans(x0, y0, t.x, t.y, corner, delta, p);
      WalkFills(x0, y0, r, corner, delta, t, p);
    } else {
      PulledDone(r, s.x, s.y, corner, Offset(p.x, x0), Below(p.y, y0), delta);
    }
  }

  lemma PulledDone(r: int, x: int, y: int, corner: bv8, dx: int, dy: int, delta: int)
    requires Midpoint(r, x, y, Decision(r, x, y), 2 * x + 1, -2 * y) && x >= y
    ensures InPulledSideUpTo(r, x, y, corner, dx, dy, delta) <==> InPulledSide(r, corner, dx, dy, delta)
  {
    DiscDone(r, x, y, Decision(r, x, y), 2 * x + 1, -2 * y, dx, Min(dy, 0));
    DiscDone(r, x, y, Decision(r, x, y), 2 * x + 1, -2 * y, dx, Max(dy - delta, 0));
  }

  lemma ColumnsAreSpans(x0: int16, y0: int16, x: int16, y: int16, corner: bv8, delta: int, p: Pixel)
    requires 0 <= x <= 0x4000 && 0 <= y <= 0x4000 && 2 * Max(x, y) + 1 + delta < 0x8000 && -0x8000 <= delta
    ensures InColumns(x0, y0, x, y, corner, delta, p) <==>
      OnDevice(p) && OnSide(corner, Offset(p.x, x0)) && InPulledSpans(x, y, Offset(p.x, x0), Below(p.y, y0), delta)
  {
    hide InWrappedRect, OnDevice, OnSide, InPulledSpans, Offset, Below;
    Fits(2 * y + 1 + delta);
    Fits(2 * x + 1 + delta);
    SpansWritten(x0, y0, x, y, corner, delta, p);
    hide ToInt16;
  }

  /** The state in column x of the top row, before the first step down. */
  function Flat(r: int, x: int): Stepper
    requires 0x4000 < r < 0x8000 && 0 <= x < 0x4000 && x * x < r
  {
    MulMono(0, 0, x, x);
    TopDecision(r, x);
    Stepper(x, r, (x + 1) * (x + 1) - r, 2 * x + 1, ToInt16(-2 * r))
  }

  lemma TopDecision(r: int, x: int)
    requires 0x4000 < r < 0x8000 && 0 <= x && x * x < r
    ensures FitsInt16((x + 1) * (x + 1) - r) && x < 182
  {
    if x >= 182 {
      MulMono(182, 182, x, x);
    }
    MulMono(0, 0, x + 1, x + 1);
    assert (x + 1) * (x + 1) == x * x + 2 * x + 1;
  }

  lemma {:induction false} FlatRun(x0: int16, y0: int16, r: int16, x: int)
    requires 0x4000 < r && 0 <= x < 0x4000 && x * x < r
    ensures OctantPixels(x0, y0, Flat(r, x)) <= OctantPixels(x0, y0, First(r))
    decreases x
  {
    hide Octants;
    if x == 0 {
      Fits(1 - r);
      assert Flat(r, 0) == First(r);
    } else {
      MulMono(x - 1, x - 1, x, x);
      FlatRun(x0, y0, r, x - 1);
      FlatStep(r, x - 1);
    }
  }

  lemma FlatStep(r: int, x: int)
    requires 0x4000 < r < 0x8000 && 0 <= x < 0x3FFF && x * x < r && (x + 1) * (x + 1) < r
    ensures Going(Flat(r, x)) && Advance(Flat(r, x)) == Flat(r, x + 1)
  {
    TopDecision(r, x);
    TopDecision(r, x + 1);
    Fits(2 * x + 3);
    Fits((x + 2) * (x + 2) - r);
    assert (x + 2) * (x + 2) == (x + 1) * (x + 1) + 2 * x + 3;
    hide ToInt16;
  }

  lemma RootUp(r: int, k: int) returns (s: int)
    requires 0 < r && 0 < k && (k - 1) * (k - 1) < r
    ensures 0 < s && (s - 1) * (s - 1) < r <= s * s
    decreases r - (k - 1) * (k - 1)
  {
    if r <= k * k {
      s := k;
    } else {
      assert k * k == (k - 1) * (k - 1) + 2 * k - 1;
      s := RootUp(r, k + 1);
    }
  }

  /** With any other radius from 16385 on the decision term falls out of range at the first step down
      and comes back as a positive number. */
  lemma FallsOut(r: int, s: int)
    requires 0x4000 < r < 0x8000 && !SafeRadius(r) && 0 < s && (s - 1) * (s - 1) < r <= s * s
    ensures -0x1_0000 <= (s + 1) * (s + 1) - 3 * r + 2 < -0x8000 && s <= 182
  {
    assert (s + 1) * (s + 1) == s * s + 2 * s + 1 == (s - 1) * (s - 1) + 4 * s;
    if 182 < s {
      MulMono(182, 182, s - 1, s - 1);
    }
    if r <= 16641 {
      if 129 < s { MulMono(129, 129, s - 1, s - 1); }
      MulMono(s + 1, s + 1, 130, 130);
    } else if r < 16750 {
      if 130 < s { MulMono(130, 130, s - 1, s - 1); }
      MulMono(s + 1, s + 1, 131, 131);
    }
  }

  /** So the loop goes down again at once, which leads off the circle. */
  lemma StrayPoint(x0: int16, y0: int16, r: int16, s: int)
    requires 0x4000 < r && !SafeRadius(r) && 0 < s && (s - 1) * (s - 1) < r <= s * s
    ensures s <= 182 && At(x0, y0, s + 1, r - 2) in OctantPixels(x0, y0, First(r)) && !OnCircle(r, s + 1, r - 2)
  {
    FallsOut(r, s);
    OffCircle(r, s);
    hide OctantPixels, First, OnCircle, SafeRadius;
    TwoStepsDown(r, s);
    FlatRun(x0, y0, r, s - 1);
    TwoStepsDrawn(x0, y0, Flat(r, s - 1));
    hide Flat, Advance, At;
  }

  lemma TwoStepsDrawn(x0: int16, y0: int16, s: Stepper)
    requires Going(s) && Going(Advance(s))
    ensures var t := Advance(Advance(s)); At(x0, y0, t.x, t.y) in OctantPixels(x0, y0, s)
  {
    hide At, Advance;
    var t := Advance(Advance(s));
    assert At(x0, y0, t.x, t.y) in Octants(x0, y0, t.x, t.y);
  }

  lemma OffCircle(r: int, s: int)
    requires 0x4000 < r && 0 < s <= 182 && (s + 1) * (s + 1) - 3 * r + 2 < 0
    ensures !OnCircle(r, s + 1, r - 2)
  {
    assert (r - 2) * (r - 2 + 1) == r * r - 3 * r + 2;
  }

  lemma TwoStepsDown(r: int, s: int)
    requires 0x4000 < r < 0x8000 && 0 < s <= 182 && (s - 1) * (s - 1) < r <= s * s
    requires -0x1_0000 <= (s + 1) * (s + 1) - 3 * r + 2 < -0x8000
    ensures var t := Flat(r, s - 1);
      && Going(t) && Going(Advance(t))
      && Advance(Advance(t)).x == s + 1 && Advance(Advance(t)).y == r - 2
  {
    TopDecision(r, s - 1);
    var d := (s + 1) * (s + 1) - 3 * r + 2;
    assert (s + 1) * (s + 1) == s * s + 2 * s + 1;
    assert ToInt16(d) == d + 0x1_0000;
    hide ToInt16, Advance;
    AdvanceSums(Flat(r, s - 1));
    AdvanceSums(Advance(Flat(r, s - 1)));
  }

  /** For radii from 0 on drawCircle draws the circle if and only if the radius is one of these. */
  lemma CircleCorrectIff(x0: int16, y0: int16, r: int16)
    requires 0 <= r
    ensures (forall p :: p in AxisPixels(x0, y0, r) + OctantPixels(x0, y0, First(r)) <==>
                         OnDevice(p) && OnCircle(r, Offset(p.x, x0), Offset(p.y, y0)))
      <==> SafeRadius(r)
  {
    hide OnCircle, OctantPixels, Offset, OnDevice, First;
    if SafeRadius(r) {
      FirstMatches(r);
      FromAxes({}, x0, y0, r);
    } else {
      var s := RootUp(r, 1);
      StrayPoint(x0, y0, r, s);
      var q := At(x0, y0, s + 1, r - 2);
      AtOffset(x0, y0, s + 1, r - 2, q);
      assert q in AxisPixels(x0, y0, r) + OctantPixels(x0, y0, First(r))
          && !(OnDevice(q) && OnCircle(r, Offset(q.x, x0), Offset(q.y, y0)));
    }
  }

  lemma FromAxes(before: set<Pixel>, x0: int16, y0: int16, r: int16)
    requires SafeRadius(r)
    ensures forall p :: p in before + AxisPixels(x0, y0, r) + OctantPixels(x0, y0, First(r)) <==>
      p in before || (OnDevice(p) && OnCircle(r, Offset(p.x, x0), Offset(p.y, y0)))
  {
    FirstMatches(r);
    CircleBegun(before, x0, y0, r);
    assert AxisPixels(x0, y0, r) == {At(x0, y0, 0, r), At(x0, y0, 0, -r), At(x0, y0, r, 0), At(x0, y0, -r, 0)};
    hide *;
    WalkDraws(before, before + AxisPixels(x0, y0, r), x0, y0, r, First(r));
  }

  lemma ArcsDrawn(before: set<Pixel>, x0: int16, y0: int16, r: int16, corner: bv8)
    requires SafeRadius(r)
    ensures forall p :: p in before + CornerPixels(x0, y0, corner, First(r)) <==>
      p in before || (OnDevice(p) && OnArc(r, corner, Offset(p.x, x0), Offset(p.y, y0)))
  {
    FirstMatches(r);
    NoArcYet(before, x0, y0, r, corner);
    WalkDrawsArcs(before, before, x0, y0, r, corner, First(r));
  }

  lemma NoArcYet(before: set<Pixel>, x0: int16, y0: int16, r: int, corner: bv8)
    ensures ArcDrawn(before, before, x0, y0, r, corner, 0)
  {
    hide Offset, InCorner;
  }

  /** The columns of fillCircleHelper leave out the centre column unless the radius is 1. */
  lemma {:induction false} NotTheCentre(x0: int16, y0: int16, corner: bv8, delta: int, s: Stepper, p: Pixel)
    requires 1 <= s.x || 2 <= s.y
    ensures InSidePixels(x0, y0, corner, delta, s, p) ==> p.x != x0
    decreases s.y - s.x
  {
    if Going(s) {
      var t := Advance(s);
      ColumnElsewhere(x0, y0, t.x, t.y, delta, p);
      ColumnElsewhere(x0, y0, t.y, t.x, delta, p);
      ColumnElsewhere(x0, y0, -t.x, t.y, delta, p);
      ColumnElsewhere(x0, y0, -t.y, t.x, delta, p);
      NotTheCentre(x0, y0, corner, delta, t, p);
      hide InColumn;
    }
  }

  lemma ColumnElsewhere(x0: int16, y0: int16, dx: int16, h: int, delta: int, p: Pixel)
    requires dx != 0
    ensures InColumn(x0, y0, dx, h, delta, p) ==> p.x != x0
  {
    if InColumn(x0, y0, dx, h, delta, p) {
      OffsetOf(x0, dx, p.x);
      SpanOfOne(ToInt16(x0 + dx), p.x);
    }
  }

  lemma DiscIsFilled(x0: int16, y0: int16, r: int16, p: Pixel)
    requires 0 <= r < 0x4000
    ensures InFilledCircle(x0, y0, r, p) <==> OnDevice(p) && InDisc(r, Offset(p.x, x0), Offset(p.y, y0))
  {
    SidesAreFilled(x0, y0, r, 3, 0, p);
    WrappedDisc(x0, y0, r, p);
    Fits(x0);
    Fits(2 * r + 1);
    hide InDisc, Offset, Below, OnDevice, InWrappedRect, ToInt16, InSidePixels, InPulledSide;
  }

  lemma SidesAreFilled(x0: int16, y0: int16, r: int16, corner: bv8, delta: int16, p: Pixel)
    requires 0 <= r <= 0x4000 && 2 * r + 1 + delta < 0x8000
    ensures InSidePixels(x0, y0, corner, delta, First(r), p) <==>
      OnDevice(p) && InPulledSide(r, corner, Offset(p.x, x0), Below(p.y, y0), delta)
  {
    FirstMatches(r);
    NothingYet(r, r, corner, Offset(p.x, x0), Below(p.y, y0), delta);
    WalkFills(x0, y0, r, corner, delta, First(r), p);
    hide InPulledSideUpTo, InPulledSide, InSidePixels;
  }

  lemma NothingYet(r: int, y: int, corner: bv8, dx: int, dy: int, delta: int)
    ensures !InPulledSideUpTo(r, 0, y, corner, dx, dy, delta)
  {
    hide InDisc, OnSide;
  }

  /** For radii from 0 on fillCircle draws the disc if and only if the radius is below 16384: from
      there on its centre column is missing. */
  lemma FillCorrectIff(x0: int16, y0: int16, r: int16)
    requires 0 <= r
    ensures (forall p :: InFilledCircle(x0, y0, r, p) <==> OnDevice(p) && InDisc(r, Offset(p.x, x0), Offset(p.y, y0)))
      <==> r < 0x4000
  {
    if r < 0x4000 {
      forall p {
        DiscIsFilled(x0, y0, r, p);
      }
    } else {
      var p := Pixel(x0, y0);
      NotTheCentre(x0, y0, 3, 0, First(r), p);
      NoCentreColumn(x0, y0, r, p);
      Fits(0);
      hide InSidePixels;
      assert !InFilledCircle(x0, y0, r, p) && OnDevice(p) && InDisc(r, Offset(p.x, x0), Offset(p.y, y0));
    }
  }

  lemma NoCentreColumn(x0: int16, y0: int16, r: int16, p: Pixel)
    requires 0x4000 <= r
    ensures !InColumn(x0, y0, 0, r, 0, p)
  {
    assert ToInt16(2 * r + 1) <= 0;
    NoSpan(ToInt16(y0 - r), ToInt16(2 * r + 1));
  }
}
