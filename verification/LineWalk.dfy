/** What the loop of writeLine writes in 16-bit arithmetic, and when that is the line. */
module LineWalk {
  import opened MachineInts
  import opened Raster
  import opened LineGeometry

  /** The minor coordinate and the error term of the loop. */
  datatype Walker = Walker(b: int16, err: int16)

  /** One iteration. The minor coordinate may step past its endpoint and out of int16 after the last
      pixel. */
  function WalkStep(w: Walker, dx: int16, dy: int16, up: bool): Walker {
    var err := ToInt16(w.err - dy);
    if err < 0 then Walker(ToInt16(w.b + if up then 1 else -1), ToInt16(err + dx)) else Walker(w.b, err)
  }

  /** The loop after k iterations, for endpoints in order. */
  function WalkAfter(a0: int16, b0: int16, a1: int16, b1: int16, k: nat): Walker
    decreases k
  {
    if k == 0 then Walker(b0, TruncDiv(ToInt16(a1 - a0), 2))
    else WalkStep(WalkAfter(a0, b0, a1, b1, k - 1), ToInt16(a1 - a0), ToInt16(Abs(b1 - b0)), b0 < b1)
  }

  predicate OnWalk(a0: int16, b0: int16, a1: int16, b1: int16, a: int, b: int) {
    a0 <= a <= a1 && b == WalkAfter(a0, b0, a1, b1, a - a0).b
  }

  predicate OnShallowWalk(x0: int16, y0: int16, x1: int16, y1: int16, x: int, y: int) {
    if x0 <= x1 then OnWalk(x0, y0, x1, y1, x, y) else OnWalk(x1, y1, x0, y0, x, y)
  }

  /** The pixels that writeLine writes. */
  predicate Walked(x0: int16, y0: int16, x1: int16, y1: int16, p: Pixel) {
    if Steep(x0, y0, x1, y1) then OnShallowWalk(y0, x0, y1, x1, p.y, p.x) else OnShallowWalk(x0, y0, x1, y1, p.x, p.y)
  }

  function MinorAt(b0: int, b1: int, j: int): int {
    if b0 < b1 then b0 + j else b0 - j
  }

  lemma WalkBegins(a0: int16, b0: int16, a1: int16, b1: int16)
    ensures WalkAfter(a0, b0, a1, b1, 0) == Walker(b0, TruncDiv(ToInt16(a1 - a0), 2))
  {
  }

  lemma WalkUnfold(a0: int16, b0: int16, a1: int16, b1: int16, k: nat)
    requires 0 < k
    ensures WalkAfter(a0, b0, a1, b1, k)
         == WalkStep(WalkAfter(a0, b0, a1, b1, k - 1), ToInt16(a1 - a0), ToInt16(Abs(b1 - b0)), b0 < b1)
  {
  }

  /** Between endpoints less than 32768 apart the loop keeps the offset nearest and the error term
      in range, and nothing wraps before the last pixel is written. */
  lemma {:induction false} WalkIsBresenham(a0: int16, b0: int16, a1: int16, b1: int16, k: nat) returns (j: int)
    requires Abs(b1 - b0) <= a1 - a0 < 0x8000 && k <= a1 - a0
    ensures var w := WalkAfter(a0, b0, a1, b1, k);
      Bresenham(a1 - a0, Abs(b1 - b0), k, j, w.err) && w.b == MinorAt(b0, b1, j) && 0 <= j <= Abs(b1 - b0)
    decreases k
  {
    var n, d := a1 - a0, Abs(b1 - b0);
    Fits(n);
    Fits(d);
    if k == 0 {
      j := 0;
      BresenhamStart(n, d);
    } else {
      hide Bresenham, WalkAfter, ToInt16;
      j := WalkIsBresenham(a0, b0, a1, b1, k - 1);
      WalkUnfold(a0, b0, a1, b1, k);
      j := WalkerStep(n, d, k - 1, j, b0, b1, WalkAfter(a0, b0, a1, b1, k - 1));
    }
  }

  lemma WalkerStep(n: int, d: int, k: int, i: int, b0: int16, b1: int16, w: Walker) returns (j: int)
    requires 0 <= d == Abs(b1 - b0) <= n < 0x8000 && k < n && Bresenham(n, d, k, i, w.err)
    requires w.b == MinorAt(b0, b1, i) && 0 <= i <= d
    ensures var w' := WalkStep(w, n, d, b0 < b1);
      Bresenham(n, d, k + 1, j, w'.err) && w'.b == MinorAt(b0, b1, j) && 0 <= j <= d
  {
    hide Bresenham, ToInt16;
    BresenhamStep(n, d, k, i, w.err);
    Fits(w.err - d);
    j := i;
    if w.err - d < 0 {
      j := i + 1;
      Fits(w.err - d + n);
      BresenhamStep(n, d, k + 1, j, w.err - d + n);
      Fits(MinorAt(b0, b1, j));
    }
  }

  lemma WalkIsRightward(a0: int16, b0: int16, a1: int16, b1: int16, a: int, b: int)
    requires Abs(b1 - b0) <= a1 - a0 < 0x8000
    ensures OnWalk(a0, b0, a1, b1, a, b) <==> OnRightward(a0, b0, a1, b1, a, b)
  {
    hide WalkAfter;
    if a0 <= a <= a1 {
      var j := WalkIsBresenham(a0, b0, a1, b1, a - a0);
      var i := if b0 < b1 then b - b0 else b0 - b;
      if NearestOffset(a1 - a0, Abs(b1 - b0), a - a0, i) {
        OffsetUnique(a1 - a0, Abs(b1 - b0), a - a0, i, j);
      }
    }
  }

  /** From 32768 on the major length is negative in 16 bits, and so is the initial error term. */
  lemma FirstRise(n: int, d: int)
    requires 0x8000 <= n < 0xFFFF && 0 <= d <= n
    ensures ToInt16(TruncDiv(ToInt16(n), 2) - ToInt16(d)) < 0 <==> d <= n - n / 2
    ensures d + d == n + 1 ==> ToInt16(TruncDiv(ToInt16(n), 2) - ToInt16(d)) == -0x8000
  {
    assert ToInt16(n) == n - 0x1_0000;
    assert TruncDiv(n - 0x1_0000, 2) == -((0x1_0000 - n) / 2) == n - n / 2 - 0x8000;
  }

  /** The loop then leaves the line at its second pixel, or else at its third. */
  function StrayStep(n: int, d: int): nat {
    if d + d == n + 1 then 2 else 1
  }

  lemma StrayPixel(a0: int16, b0: int16, a1: int16, b1: int16)
    requires Abs(b1 - b0) <= a1 - a0 && 0x8000 <= a1 - a0 && a1 < 0x7FFF
    ensures var k := StrayStep(a1 - a0, Abs(b1 - b0));
      k <= a1 - a0 && !OnRightward(a0, b0, a1, b1, a0 + k, WalkAfter(a0, b0, a1, b1, k).b)
  {
    var n, d := a1 - a0, Abs(b1 - b0);
    var start := WalkAfter(a0, b0, a1, b1, 0);
    var first := WalkAfter(a0, b0, a1, b1, 1);
    FirstRise(n, d);
    WalkUnfold(a0, b0, a1, b1, 1);
    if d + d != n + 1 {
      assert NearestOffset(n, d, 1, if d <= n / 2 then 0 else 1);
      OffByOne(n, d, 1, if d <= n / 2 then 0 else 1, b0, b1, first.b);
    } else {
      WalkUnfold(a0, b0, a1, b1, 2);
      SecondRise(n, d, b0, b1, first);
      assert NearestOffset(n, d, 2, 1);
      OffByOne(n, d, 2, 1, b0, b1, WalkAfter(a0, b0, a1, b1, 2).b);
    }
  }

  lemma SecondRise(n: int, d: int, b0: int16, b1: int16, first: Walker)
    requires 0x8000 <= n < 0xFFFF && d == Abs(b1 - b0) && d + d == n + 1
    requires first == Walker(ToInt16(b0 + if b0 < b1 then 1 else -1), ToInt16(-0x8000 + ToInt16(n)))
    ensures WalkStep(first, ToInt16(n), ToInt16(d), b0 < b1).b == MinorAt(b0, b1, 2)
  {
    assert ToInt16(n) == n - 0x1_0000 && ToInt16(d) == d;
    assert first.err == n - 0x8000 && first.b == MinorAt(b0, b1, 1);
    Fits(n - 0x8000 - d);
    Fits(MinorAt(b0, b1, 2));
  }

  lemma OffByOne(n: int, d: int, k: int, j: int, b0: int, b1: int, b: int)
    requires 0 <= n && NearestOffset(n, d, k, j) && b != MinorAt(b0, b1, j)
    ensures !NearestOffset(n, d, k, if b0 < b1 then b - b0 else b0 - b)
  {
    var i := if b0 < b1 then b - b0 else b0 - b;
    if NearestOffset(n, d, k, i) {
      OffsetUnique(n, d, k, i, j);
    }
  }

  function LargerMajor(x0: int, y0: int, x1: int, y1: int): int {
    if Steep(x0, y0, x1, y1) then Max(y0, y1) else Max(x0, x1)
  }

  lemma WalkIsLine(x0: int16, y0: int16, x1: int16, y1: int16, p: Pixel)
    requires MajorLength(x0, y0, x1, y1) < 0x8000
    ensures Walked(x0, y0, x1, y1, p) <==> OnLine(x0, y0, x1, y1, p)
  {
    hide OnWalk, OnRightward;
    var (a0, b0, a1, b1) := InOrder(x0, y0, x1, y1);
    WalkIsRightward(a0, b0, a1, b1, MajorOf(x0, y0, x1, y1, p), MinorOf(x0, y0, x1, y1, p));
  }

  /** The endpoints as the loop gets them. */
  function InOrder(x0: int16, y0: int16, x1: int16, y1: int16): (int16, int16, int16, int16) {
    if Steep(x0, y0, x1, y1) then
      if y0 <= y1 then (y0, x0, y1, x1) else (y1, x1, y0, x0)
    else
      if x0 <= x1 then (x0, y0, x1, y1) else (x1, y1, x0, y0)
  }

  /** Where writeLine returns at all, it draws the line if and only if the endpoints are less than
      32768 apart. */
  lemma LineCorrectIff(x0: int16, y0: int16, x1: int16, y1: int16)
    requires LargerMajor(x0, y0, x1, y1) < 0x7FFF
    ensures (forall p :: Walked(x0, y0, x1, y1, p) <==> OnLine(x0, y0, x1, y1, p)) <==>
      MajorLength(x0, y0, x1, y1) < 0x8000
  {
    if MajorLength(x0, y0, x1, y1) < 0x8000 {
      forall p {
        WalkIsLine(x0, y0, x1, y1, p);
      }
    } else {
      var p := StrayOnLine(x0, y0, x1, y1);
      hide Walked, OnLine;
      assert !(Walked(x0, y0, x1, y1, p) <==> OnLine(x0, y0, x1, y1, p));
    }
  }

  lemma StrayOnLine(x0: int16, y0: int16, x1: int16, y1: int16) returns (p: Pixel)
    requires LargerMajor(x0, y0, x1, y1) < 0x7FFF && 0x8000 <= MajorLength(x0, y0, x1, y1)
    ensures Walked(x0, y0, x1, y1, p) && !OnLine(x0, y0, x1, y1, p)
  {
    hide WalkAfter, NearestOffset;
    var (a0, b0, a1, b1) := InOrder(x0, y0, x1, y1);
    StrayPixel(a0, b0, a1, b1);
    var k := StrayStep(a1 - a0, Abs(b1 - b0));
    var b := WalkAfter(a0, b0, a1, b1, k).b;
    p := if Steep(x0, y0, x1, y1) then Pixel(b, a0 + k) else Pixel(a0 + k, b);
  }

  /** The major coordinate after n increments. */
  function Incremented(a: int16, n: nat): int16 {
    ToInt16(a + n)
  }

  /** The loop can end if and only if the larger major coordinate is below 32767: an int16 is never
      greater than that. */
  lemma GuardFailsIff(a0: int16, a1: int16)
    requires a0 <= a1
    ensures (exists n: nat :: Incremented(a0, n) > a1) <==> a1 < 0x7FFF
  {
    if a1 < 0x7FFF {
      Fits(a1 + 1);
      assert Incremented(a0, a1 + 1 - a0) > a1;
    }
  }

  /** The length of a straight line of n + 1 pixels in 16 bits. */
  lemma StraightLength(n: nat)
    requires n < 0x1_0000
    ensures if n < 0x7FFF then ToInt16(n + 1) == n + 1 else ToInt16(n + 1) <= 0
  {
  }

  /** The pixels added so far are those of the walk with a major coordinate below m. */
  ghost predicate DrawnBelow(before: set<Pixel>, now: set<Pixel>, steep: bool,
                             a0: int16, b0: int16, a1: int16, b1: int16, m: int)
  {
    forall p :: p in now <==>
      p in before || (Major(steep, p) < m && OnWalk(a0, b0, a1, b1, Major(steep, p), Major(!steep, p)))
  }

  function Major(steep: bool, p: Pixel): int {
    if steep then p.y else p.x
  }

  lemma NothingDrawn(before: set<Pixel>, steep: bool, a0: int16, b0: int16, a1: int16, b1: int16)
    ensures DrawnBelow(before, before, steep, a0, b0, a1, b1, a0)
  {
  }

  lemma AllDrawn(before: set<Pixel>, now: set<Pixel>, steep: bool, a0: int16, b0: int16, a1: int16, b1: int16)
    requires DrawnBelow(before, now, steep, a0, b0, a1, b1, a1 + 1)
    ensures forall p :: p in now <==>
      p in before || OnWalk(a0, b0, a1, b1, Major(steep, p), Major(!steep, p))
  {
  }

  /** The pixel the loop writes is the one pixel of the walk at its major coordinate. */
  lemma WalkPixel(before: set<Pixel>, now: set<Pixel>, steep: bool, a0: int16, b0: int16, a1: int16, b1: int16,
                  k: nat)
    requires k <= a1 - a0 && DrawnBelow(before, now, steep, a0, b0, a1, b1, a0 + k)
    ensures var a, b := a0 + k, WalkAfter(a0, b0, a1, b1, k).b;
      var q := if steep then Pixel(b, a) else Pixel(a, b);
      DrawnBelow(before, now + {q}, steep, a0, b0, a1, b1, a + 1)
  {
    hide WalkAfter;
  }
}
