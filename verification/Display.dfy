/** The drawing primitives of the display class. The device is abstract: what is modelled is the
    set of pixels it was asked to write, and how many times it was asked. */
module Displays {
  import opened MachineInts
  import opened Raster
  import opened LineGeometry
  import opened LineWalk
  import opened CircleGeometry
  import opened CircleWalk
  import opened RoundRectGeometry
  import opened TriangleGeometry

  class Display {
    var painted: set<Pixel>
    var writes: nat

    constructor ()
      ensures painted == {} && writes == 0
    {
      painted, writes := {}, 0;
    }

    method WritePixel(x: int16, y: int16)
      modifies this
      ensures painted == old(painted) + {Pixel(x, y)} && writes == old(writes) + 1
    {
      painted, writes := painted + {Pixel(x, y)}, writes + 1;
    }

    /** Coordinates beyond int16 wrap around. */
    method WriteFillRect(x: int16, y: int16, w: int16, h: int16)
      modifies this
      ensures forall p :: p in painted <==> p in old(painted) || InWrappedRect(x, y, w, h, p)
      ensures (w > 0 && h > 0 ==> FitsInt16(x + w - 1) && FitsInt16(y + h - 1)) ==>
        forall p :: p in painted <==> p in old(painted) || InRect(x, y, w, h, p)
      ensures writes == old(writes) + if w <= 0 || h <= 0 then 0 else w * h
    {
      hide InSpan;
      if w > 0 && h > 0 ==> FitsInt16(x + w - 1) && FitsInt16(y + h - 1) {
        RectFits(x, y, w, h);
      }
      NoSpan(x, Min(w, 0));
      NoSpan(y, Min(h, 0));
      if w <= 0 || h <= 0 {
        return;
      }
      var i: int32 := x;
      while i < x + w
        invariant x <= i <= x + w
        invariant forall p :: p in painted <==> p in old(painted) || InWrappedRect(x, y, i - x, h, p)
        invariant writes == old(writes) + (i - x) * h
      {
        WriteColumn(i, y, h);
        SpanStep(x, i - x);
        assert (i + 1 - x) * h == (i - x) * h + h;
        i := i + 1;
      }
    }

    /** The inner loop of writeFillRect. */
    method WriteColumn(i: int32, y: int16, h: int16)
      requires 0 < h
      modifies this
      ensures forall p: Pixel :: p in painted <==> p in old(painted) || (p.x == ToInt16(i) && InSpan(y, h, p.y))
      ensures writes == old(writes) + h
    {
      hide InSpan;
      NoSpan(y, 0);
      var j: int32 := y;
      while j < y + h
        invariant y <= j <= y + h
        invariant forall p: Pixel :: p in painted <==>
          p in old(painted) || (p.x == ToInt16(i) && InSpan(y, j - y, p.y))
        invariant writes == old(writes) + (j - y)
      {
        WritePixel(ToInt16(i), ToInt16(j));
        SpanStep(y, j - y);
        j := j + 1;
      }
    }

    method WriteFastVLine(x: int16, y: int16, h: int16)
      modifies this
      ensures forall p :: p in painted <==> p in old(painted) || InWrappedRect(x, y, 1, h, p)
      ensures (h > 0 ==> FitsInt16(y + h - 1)) ==>
        forall p :: p in painted <==> p in old(painted) || InRect(x, y, 1, h, p)
      ensures writes == old(writes) + Max(h, 0)
    {
      WriteFillRect(x, y, 1, h);
    }

    method WriteFastHLine(x: int16, y: int16, w: int16)
      modifies this
      ensures forall p :: p in painted <==> p in old(painted) || InWrappedRect(x, y, w, 1, p)
      ensures (w > 0 ==> FitsInt16(x + w - 1)) ==>
        forall p :: p in painted <==> p in old(painted) || InRect(x, y, w, 1, p)
      ensures writes == old(writes) + Max(w, 0)
    {
      WriteFillRect(x, y, w, 1);
    }

    /** Bresenham's algorithm: the endpoints are put in order, then the line is walked. */
    method WriteLine(x0: int16, y0: int16, x1: int16, y1: int16)
      requires LargerMajor(x0, y0, x1, y1) < 0x7FFF
      modifies this
      ensures forall p :: p in painted <==> p in old(painted) || Walked(x0, y0, x1, y1, p)
      ensures MajorLength(x0, y0, x1, y1) < 0x8000 ==>
        forall p :: p in painted <==> p in old(painted) || OnLine(x0, y0, x1, y1, p)
      ensures writes == old(writes) + MajorLength(x0, y0, x1, y1) + 1
    {
      var a0: int16, b0: int16, a1: int16, b1: int16 := x0, y0, x1, y1;
      var steep := Abs(y1 - y0) > Abs(x1 - x0);
      if steep {
        a0, b0 := b0, a0;
        a1, b1 := b1, a1;
      }
      if a0 > a1 {
        a0, a1 := a1, a0;
        b0, b1 := b1, b0;
      }
      WriteSteps(a0, b0, a1, b1, steep);
      if MajorLength(x0, y0, x1, y1) < 0x8000 {
        forall p {
          WalkIsLine(x0, y0, x1, y1, p);
        }
      }
      hide OnWalk, OnLine;
    }

    /** The loop of writeLine, one pixel for each step along the major axis a. */
    method WriteSteps(a0: int16, b0: int16, a1: int16, b1: int16, steep: bool)
      requires a0 <= a1 < 0x7FFF
      modifies this
      ensures forall p :: p in painted <==>
        p in old(painted) || OnWalk(a0, b0, a1, b1, Major(steep, p), Major(!steep, p))
      ensures writes == old(writes) + (a1 - a0) + 1
    {
      hide WalkAfter, ToInt16, TruncDiv, DrawnBelow;
      WalkBegins(a0, b0, a1, b1);
      NothingDrawn(painted, steep, a0, b0, a1, b1);
      var a: int16, b: int16 := a0, b0;
      var dx: int16 := ToInt16(a1 - a0);
      var dy: int16 := ToInt16(Abs(b1 - b0));
      var err: int16 := TruncDiv(dx, 2);
      var ystep: int16 := if b0 < b1 then 1 else -1;

      ghost var k := 0;
      while a <= a1
        invariant a == a0 + k && k <= a1 - a0 + 1
        invariant WalkAfter(a0, b0, a1, b1, k) == Walker(b, err)
        invariant DrawnBelow(old(painted), painted, steep, a0, b0, a1, b1, a)
        invariant writes == old(writes) + k
        decreases a1 - a
      {
        WalkPixel(old(painted), painted, steep, a0, b0, a1, b1, k);
        if steep {
          WritePixel(b, a);
        } else {
          WritePixel(a, b);
        }
        WalkUnfold(a0, b0, a1, b1, k + 1);
        err := ToInt16(err - dy);
        if err < 0 {
          b := ToInt16(b + ystep);
          err := ToInt16(err + dx);
        }
        a := a + 1;
        k := k + 1;
      }
      AllDrawn(old(painted), painted, steep, a0, b0, a1, b1);
    }

    /** The height and width arguments are converted to int16: from 32768 pixels on, the length of a
        straight line is no longer positive and nothing is drawn. */
    method DrawLine(x0: int16, y0: int16, x1: int16, y1: int16)
      requires x0 != x1 && y0 != y1 ==> LargerMajor(x0, y0, x1, y1) < 0x7FFF
      modifies this
      ensures MajorLength(x0, y0, x1, y1) < (if x0 == x1 || y0 == y1 then 0x7FFF else 0x8000) ==>
        && (forall p :: p in painted <==> p in old(painted) || OnLine(x0, y0, x1, y1, p))
        && writes == old(writes) + MajorLength(x0, y0, x1, y1) + 1
      ensures (x0 == x1 || y0 == y1) && MajorLength(x0, y0, x1, y1) >= 0x7FFF ==>
        painted == old(painted) && writes == old(writes)
      ensures x0 != x1 && y0 != y1 ==>
        && (forall p :: p in painted <==> p in old(painted) || Walked(x0, y0, x1, y1, p))
        && writes == old(writes) + MajorLength(x0, y0, x1, y1) + 1
    {
      forall p {
        StraightLines(x0, y0, x1, y1, p);
      }
      StraightLength(MajorLength(x0, y0, x1, y1));
      hide OnLine, Walked;
      if x0 == x1 {
        var top: int16, bottom: int16 := y0, y1;
        if top > bottom {
          top, bottom := bottom, top;
        }
        WriteFastVLine(x0, top, ToInt16(bottom - top + 1));
      } else if y0 == y1 {
        var left: int16, right: int16 := x0, x1;
        if left > right {
          left, right := right, left;
        }
        WriteFastHLine(left, y0, ToInt16(right - left + 1));
      } else {
        WriteLine(x0, y0, x1, y1);
      }
    }

    /** The eight writes of one iteration of drawCircle. Coordinates beyond int16 wrap around. */
    method WriteOctants(x0: int16, y0: int16, x: int16, y: int16)
      modifies this
      ensures painted == old(painted) + Octants(x0, y0, x, y)
    {
      hide ToInt16;
      WritePixel(ToInt16(x0 + x), ToInt16(y0 + y));
      WritePixel(ToInt16(x0 - x), ToInt16(y0 + y));
      WritePixel(ToInt16(x0 + x), ToInt16(y0 - y));
      WritePixel(ToInt16(x0 - x), ToInt16(y0 - y));
      WritePixel(ToInt16(x0 + y), ToInt16(y0 + x));
      WritePixel(ToInt16(x0 - y), ToInt16(y0 + x));
      WritePixel(ToInt16(x0 + y), ToInt16(y0 - x));
      WritePixel(ToInt16(x0 - y), ToInt16(y0 - x));
    }

    /** For any radius, in 16-bit arithmetic. */
    method DrawCircle(x0: int16, y0: int16, r: int16)
      modifies this
      ensures painted == old(painted) + AxisPixels(x0, y0, r) + OctantPixels(x0, y0, First(r))
      ensures SafeRadius(r) ==>
        forall p :: p in painted <==>
          p in old(painted) || (OnDevice(p) && OnCircle(r, Offset(p.x, x0), Offset(p.y, y0)))
      ensures SafeRadius(r) && HasMargin(x0, y0, r) ==>
        forall p :: p in painted <==> p in old(painted) || OnCircle(r, p.x - x0, p.y - y0)
    {
      DrawOctants(x0, y0, r);
      hide OctantPixels, AxisPixels, OnCircle, OnDevice, Offset;
      if SafeRadius(r) {
        FromAxes(old(painted), x0, y0, r);
        if HasMargin(x0, y0, r) {
          forall p {
            PlainCircle(x0, y0, r, p);
          }
        }
      }
    }

    /** The body of drawCircle. */
    method DrawOctants(x0: int16, y0: int16, r: int16)
      modifies this
      ensures painted == old(painted) + AxisPixels(x0, y0, r) + OctantPixels(x0, y0, First(r))
    {
      hide ToInt16, Octants;
      var f: int16 := ToInt16(1 - r);
      var ddFx: int16 := 1;
      var ddFy: int16 := ToInt16(-2 * r);
      var x: int16 := 0;
      var y: int16 := r;

      WritePixel(x0, ToInt16(y0 + r));
      WritePixel(x0, ToInt16(y0 - r));
      WritePixel(ToInt16(x0 + r), y0);
      WritePixel(ToInt16(x0 - r), y0);
      Fits(x0);
      Fits(y0);
      assert painted == old(painted) + AxisPixels(x0, y0, r);

      while x < y
        invariant 0 <= x
        invariant painted + OctantPixels(x0, y0, Stepper(x, y, f, ddFx, ddFy))
          == old(painted) + AxisPixels(x0, y0, r) + OctantPixels(x0, y0, First(r))
        decreases y - x
      {
        ghost var s := Stepper(x, y, f, ddFx, ddFy);
        if f >= 0 {
          y := y - 1;
          ddFy := ToInt16(ddFy + 2);
          f := ToInt16(f + ddFy);
        }
        x := x + 1;
        ddFx := ToInt16(ddFx + 2);
        f := ToInt16(f + ddFx);
        assert Stepper(x, y, f, ddFx, ddFy) == Advance(s);
        WriteOctants(x0, y0, x, y);
      }
    }

    /** The writes of one iteration of drawCircleHelper. */
    method WriteCorners(x0: int16, y0: int16, x: int16, y: int16, corner: bv8)
      modifies this
      ensures painted == old(painted) + Corners(x0, y0, x, y, corner)
    {
      hide ToInt16;
      if corner & 4 != 0 {
        WritePixel(ToInt16(x0 + x), ToInt16(y0 + y));
        WritePixel(ToInt16(x0 + y), ToInt16(y0 + x));
      }
      if corner & 2 != 0 {
        WritePixel(ToInt16(x0 + x), ToInt16(y0 - y));
        WritePixel(ToInt16(x0 + y), ToInt16(y0 - x));
      }
      if corner & 8 != 0 {
        WritePixel(ToInt16(x0 - y), ToInt16(y0 + x));
        WritePixel(ToInt16(x0 - x), ToInt16(y0 + y));
      }
      if corner & 1 != 0 {
        WritePixel(ToInt16(x0 - y), ToInt16(y0 - x));
        WritePixel(ToInt16(x0 - x), ToInt16(y0 - y));
      }
    }

    method DrawCircleHelper(x0: int16, y0: int16, r: int16, corner: bv8)
      modifies this
      ensures painted == old(painted) + CornerPixels(x0, y0, corner, First(r))
      ensures SafeRadius(r) ==>
        forall p :: p in painted <==>
          p in old(painted) || (OnDevice(p) && OnArc(r, corner, Offset(p.x, x0), Offset(p.y, y0)))
      ensures SafeRadius(r) && HasCornerMargin(x0, y0, r, corner) ==>
        forall p :: p in painted <==> p in old(painted) || OnArc(r, corner, p.x - x0, p.y - y0)
    {
      DrawCorners(x0, y0, r, corner);
      hide CornerPixels, OnArc, OnDevice, Offset, HasCornerMargin;
      if SafeRadius(r) {
        ArcsDrawn(old(painted), x0, y0, r, corner);
        if HasCornerMargin(x0, y0, r, corner) {
          forall p {
            PlainArc(x0, y0, r, corner, p);
          }
        }
      }
    }

    /** The body of drawCircleHelper. */
    method DrawCorners(x0: int16, y0: int16, r: int16, corner: bv8)
      modifies this
      ensures painted == old(painted) + CornerPixels(x0, y0, corner, First(r))
    {
      hide ToInt16, Corners;
      var f: int16 := ToInt16(1 - r);
      var ddFx: int16 := 1;
      var ddFy: int16 := ToInt16(-2 * r);
      var x: int16 := 0;
      var y: int16 := r;

      while x < y
        invariant 0 <= x
        invariant painted + CornerPixels(x0, y0, corner, Stepper(x, y, f, ddFx, ddFy))
          == old(painted) + CornerPixels(x0, y0, corner, First(r))
        decreases y - x
      {
        ghost var s := Stepper(x, y, f, ddFx, ddFy);
        if f >= 0 {
          y := y - 1;
          ddFy := ToInt16(ddFy + 2);
          f := ToInt16(f + ddFy);
        }
        x := x + 1;
        ddFx := ToInt16(ddFx + 2);
        f := ToInt16(f + ddFx);
        assert Stepper(x, y, f, ddFx, ddFy) == Advance(s);
        WriteCorners(x0, y0, x, y, corner);
      }
    }

    /** For any radius, in 16-bit arithmetic. */
    method FillCircle(x0: int16, y0: int16, r: int16)
      modifies this
      ensures forall p :: p in painted <==> p in old(painted) || InFilledCircle(x0, y0, r, p)
      ensures 0 <= r < 0x4000 ==>
        forall p :: p in painted <==>
          p in old(painted) || (OnDevice(p) && InDisc(r, Offset(p.x, x0), Offset(p.y, y0)))
      ensures 0 <= r < 0x4000 && HasMargin(x0, y0, r) ==>
        forall p :: p in painted <==> p in old(painted) || InDisc(r, p.x - x0, p.y - y0)
    {
      hide ToInt16, InWrappedRect, InDisc, InPulledSide, OnDevice, Offset, Below, InSidePixels;
      WriteFastVLine(x0, ToInt16(y0 - r), ToInt16(2 * r + 1));
      FillCircleHelper(x0, y0, r, 3, 0);
      Fits(x0);
      assert forall p :: p in painted <==> p in old(painted) || InFilledCircle(x0, y0, r, p);
      hide InFilledCircle;
      if 0 <= r < 0x4000 {
        forall p {
          DiscIsFilled(x0, y0, r, p);
        }
        if HasMargin(x0, y0, r) {
          forall p {
            PlainDisc(x0, y0, r, p);
          }
        }
      }
    }

    /** The writes of one iteration of fillCircleHelper. */
    method WriteSpans(x0: int16, y0: int16, x: int16, y: int16, corner: bv8, delta: int16)
      modifies this
      ensures forall p :: p in painted <==> p in old(painted) || InColumns(x0, y0, x, y, corner, delta, p)
    {
      hide ToInt16, InWrappedRect;
      if corner & 1 != 0 {
        WriteFastVLine(ToInt16(x0 + x), ToInt16(y0 - y), ToInt16(2 * y + 1 + delta));
        WriteFastVLine(ToInt16(x0 + y), ToInt16(y0 - x), ToInt16(2 * x + 1 + delta));
      }
      if corner & 2 != 0 {
        WriteFastVLine(ToInt16(x0 - x), ToInt16(y0 - y), ToInt16(2 * y + 1 + delta));
        WriteFastVLine(ToInt16(x0 - y), ToInt16(y0 - x), ToInt16(2 * x + 1 + delta));
      }
    }

    /** A negative delta shortens the columns. */
    method FillCircleHelper(x0: int16, y0: int16, r: int16, corner: bv8, delta: int16)
      modifies this
      ensures forall p :: p in painted <==> p in old(painted) || InSidePixels(x0, y0, corner, delta, First(r), p)
      ensures 0 <= r <= 0x4000 && 2 * r + 1 + delta < 0x8000 ==>
        forall p :: p in painted <==>
          p in old(painted) || (OnDevice(p) && InPulledSide(r, corner, Offset(p.x, x0), Below(p.y, y0), delta))
      ensures 0 <= r <= 0x4000 && 2 * r + 1 + delta < 0x8000 && HasSideMargin(x0, y0, r, corner, delta) ==>
        forall p :: p in painted <==> p in old(painted) || InPulledSide(r, corner, p.x - x0, p.y - y0, delta)
    {
      FillSpans(x0, y0, r, corner, delta);
      hide InSidePixels, InPulledSide, OnDevice, Offset, Below, HasSideMargin;
      if 0 <= r <= 0x4000 && 2 * r + 1 + delta < 0x8000 {
        forall p {
          SidesAreFilled(x0, y0, r, corner, delta, p);
        }
        if HasSideMargin(x0, y0, r, corner, delta) {
          forall p {
            PlainSide(x0, y0, r, corner, delta, p);
          }
        }
      }
    }

    /** The body of fillCircleHelper. */
    method FillSpans(x0: int16, y0: int16, r: int16, corner: bv8, delta: int16)
      modifies this
      ensures forall p :: p in painted <==> p in old(painted) || InSidePixels(x0, y0, corner, delta, First(r), p)
    {
      hide ToInt16, InColumns;
      var f: int16 := ToInt16(1 - r);
      var ddFx: int16 := 1;
      var ddFy: int16 := ToInt16(-2 * r);
      var x: int16 := 0;
      var y: int16 := r;

      while x < y
        invariant 0 <= x
        invariant forall p ::
          (p in painted || InSidePixels(x0, y0, corner, delta, Stepper(x, y, f, ddFx, ddFy), p)) <==>
          (p in old(painted) || InSidePixels(x0, y0, corner, delta, First(r), p))
        decreases y - x
      {
        ghost var s := Stepper(x, y, f, ddFx, ddFy);
        if f >= 0 {
          y := y - 1;
          ddFy := ToInt16(ddFy + 2);
          f := ToInt16(f + ddFy);
        }
        x := x + 1;
        ddFx := ToInt16(ddFx + 2);
        f := ToInt16(f + ddFx);
        assert Stepper(x, y, f, ddFx, ddFy) == Advance(s);
        WriteSpans(x0, y0, x, y, corner, delta);
      }
    }

    /** For any size and radius, in 16-bit arithmetic. */
    method DrawRoundRect(x: int16, y: int16, w: int16, h: int16, r: int16)
      modifies this
      ensures forall p :: p in painted <==>
        p in old(painted) || OnWrappedEdges(x, y, w, h, r, p) || OnWrappedCorners(x, y, w, h, r, p)
      ensures SafeRadius(r) && HasRoundRectMargin(x, y, w, h, r) ==>
        forall p :: p in painted <==>
          p in old(painted) || OnEdges(x, y, w, h, r, p) || OnCorners(x, y, w, h, r, p)
      ensures SafeRadius(r) && HasRoundRectMargin(x, y, w, h, r) && 2 * r + 1 <= w && 2 * r + 1 <= h ==>
        forall p :: p in painted <==> p in old(painted) || OnRoundRect(x, y, w, h, r, p)
      ensures SafeRadius(r) && HasRoundRectMargin(x, y, w, h, r) && 2 <= r && 2 * r <= w && 2 * r <= h ==>
        forall p :: p in painted <==> p in old(painted) || OnCircle(r, Fold(p.x - x, w, r), Fold(p.y - y, h, r))
    {
      WriteRoundRectEdges(x, y, w, h, r);
      WriteRoundRectCorners(x, y, w, h, r);
      hide OnWrappedEdges, OnWrappedCorners, OnEdges, OnCorners, OnRoundRect, HasRoundRectMargin;
      if SafeRadius(r) && HasRoundRectMargin(x, y, w, h, r) {
        forall p {
          PlainEdges(x, y, w, h, r, p);
        }
        forall p {
          PlainCorners(x, y, w, h, r, p);
        }
        if 2 * r + 1 <= w && 2 * r + 1 <= h {
          forall p {
            RoundRectParts(x, y, w, h, r, p);
          }
        }
        if 2 <= r && 2 * r <= w && 2 * r <= h {
          forall p {
            OutlineIsFolded(x, y, w, h, r, p);
          }
          hide OnCircle, Fold;
        }
      }
    }

    /** The first half of drawRoundRect. */
    method WriteRoundRectEdges(x: int16, y: int16, w: int16, h: int16, r: int16)
      modifies this
      ensures forall p :: p in painted <==> p in old(painted) || OnWrappedEdges(x, y, w, h, r, p)
    {
      hide InWrappedRect, ToInt16;
      WriteFastHLine(ToInt16(x + r), y, ToInt16(w - 2 * r));
      WriteFastHLine(ToInt16(x + r), ToInt16(y + h - 1), ToInt16(w - 2 * r));
      WriteFastVLine(x, ToInt16(y + r), ToInt16(h - 2 * r));
      WriteFastVLine(ToInt16(x + w - 1), ToInt16(y + r), ToInt16(h - 2 * r));
    }

    /** The second half of drawRoundRect. */
    method WriteRoundRectCorners(x: int16, y: int16, w: int16, h: int16, r: int16)
      modifies this
      ensures forall p :: p in painted <==> p in old(painted) || OnWrappedCorners(x, y, w, h, r, p)
    {
      hide CornerPixels, ToInt16, OnArc, Offset, First;
      DrawCircleHelper(ToInt16(x + r), ToInt16(y + r), r, 1);
      DrawCircleHelper(ToInt16(x + w - r - 1), ToInt16(y + r), r, 2);
      DrawCircleHelper(ToInt16(x + w - r - 1), ToInt16(y + h - r - 1), r, 4);
      DrawCircleHelper(ToInt16(x + r), ToInt16(y + h - r - 1), r, 8);
    }

    /** For any size and radius, in 16-bit arithmetic. */
    method FillRoundRect(x: int16, y: int16, w: int16, h: int16, r: int16)
      modifies this
      ensures forall p :: p in painted <==> p in old(painted) || InWrappedFill(x, y, w, h, r, p)
      ensures 0 <= r < 0x4000 && HasRoundRectMargin(x, y, w, h, r) ==>
        forall p :: p in painted <==> p in old(painted) || InFillParts(x, y, w, h, r, p)
      ensures 0 <= r < 0x4000 && HasRoundRectMargin(x, y, w, h, r) && 2 * r + 1 <= w && 2 * r + 1 <= h ==>
        forall p :: p in painted <==> p in old(painted) || InRoundRect(x, y, w, h, r, p)
      ensures 0 <= r < 0x4000 && HasRoundRectMargin(x, y, w, h, r) && 2 <= r && 2 * r <= w && 2 * r <= h ==>
        forall p :: p in painted <==> p in old(painted) || InDisc(r, Fold(p.x - x, w, r), Fold(p.y - y, h, r))
      ensures 0 <= r < 0x4000 && HasRoundRectMargin(x, y, w, h, r) ==>
        forall p: Pixel :: x + r <= p.x < x + w - r && y <= p.y < y + h ==> p in painted
    {
      FillRoundRectParts(x, y, w, h, r);
      hide InWrappedFill, InFillParts, InRoundRect, HasRoundRectMargin;
      if 0 <= r < 0x4000 && HasRoundRectMargin(x, y, w, h, r) {
        forall p {
          PlainFill(x, y, w, h, r, p);
        }
        forall p | InRect(x + r, y, w - 2 * r, h, p)
          ensures p in painted
        {
          MiddleFilled(x, y, w, h, r, p);
        }
        if 2 <= r && 2 * r <= w && 2 * r <= h {
          forall p {
            FillIsFolded(x, y, w, h, r, p);
          }
          hide InDisc, Fold;
        }
        if 2 * r + 1 <= w && 2 * r + 1 <= h {
          forall p {
            RoundRectFillParts(x, y, w, h, r, p);
          }
        }
      }
    }

    /** The body of fillRoundRect. */
    method FillRoundRectParts(x: int16, y: int16, w: int16, h: int16, r: int16)
      modifies this
      ensures forall p :: p in painted <==> p in old(painted) || InWrappedFill(x, y, w, h, r, p)
    {
      hide InWrappedRect, ToInt16, InSidePixels, InPulledSide, Offset, Below, First;
      WriteFillRect(ToInt16(x + r), y, ToInt16(w - 2 * r), h);
      FillCircleHelper(ToInt16(x + w - r - 1), ToInt16(y + r), r, 1, ToInt16(h - 2 * r - 1));
      FillCircleHelper(ToInt16(x + r), ToInt16(y + r), r, 2, ToInt16(h - 2 * r - 1));
    }

    method FillTriangle(v0: Pixel, v1: Pixel, v2: Pixel)
      requires Drawable(v0, v1, v2)
      modifies this
      ensures forall p :: p in painted <==> p in old(painted) || InDrawnFill(v0, v1, v2, p)
      ensures MiddleWidth(v0, v1, v2) < 0x7FFF ==>
        forall p :: p in painted <==> p in old(painted) || InFill(v0, v1, v2, p)
      ensures writes == old(writes) + FillSize(v0, v1, v2)
    {
      FillCompleteIff(v0, v1, v2);
      DrawSorted(v0, v1, v2);
      hide InDrawnFill, InFill;
    }

    /** The body of fillTriangle. */
    method DrawSorted(v0: Pixel, v1: Pixel, v2: Pixel)
      requires Drawable(v0, v1, v2)
      modifies this
      ensures forall p :: p in painted <==> p in old(painted) || InDrawnFill(v0, v1, v2, p)
      ensures writes == old(writes) + FillSize(v0, v1, v2)
    {
      var x0: int16, y0: int16, x1: int16, y1: int16, x2: int16, y2: int16 := v0.x, v0.y, v1.x, v1.y, v2.x, v2.y;

      if y0 > y1 {
        y0, y1 := y1, y0;
        x0, x1 := x1, x0;
      }
      if y1 > y2 {
        y2, y1 := y1, y2;
        x2, x1 := x1, x2;
      }
      if y0 > y1 {
        y0, y1 := y1, y0;
        x0, x1 := x1, x0;
      }
      ghost var s0, s1, s2 := Pixel(x0, y0), Pixel(x1, y1), Pixel(x2, y2);
      assert (s0, s1, s2) == SortByY(v0, v1, v2);

      if y0 == y2 {
        var a: int16, b: int16 := x0, x0;
        if x1 < a {
          a := x1;
        } else if x1 > b {
          b := x1;
        }
        if x2 < a {
          a := x2;
        } else if x2 > b {
          b := x2;
        }
        StraightLength(b - a);
        WriteFastHLine(a, y0, ToInt16(b - a + 1));
        return;
      }

      var y := FillUpperRows(x0, y0, x1, y1, x2, y2);
      FillLowerRows(x0, y0, x1, y1, x2, y2, y, old(painted));
    }

    /** The end of both scanline loops: the crossings are put in order and the row is drawn. */
    method WriteSpan(a: int16, b: int16, y: int16)
      modifies this
      ensures forall p :: p in painted <==> p in old(painted) || InDrawnSpan(a, b, y, p)
      ensures writes == old(writes) + RowWrites(Max(a, b) - Min(a, b))
    {
      var left: int16, right: int16 := a, b;
      if left > right {
        left, right := right, left;
      }
      StraightLength(right - left);
      WriteFastHLine(left, y, ToInt16(right - left + 1));
    }

    /** The first scanline loop of fillTriangle, for vertices in row order: the rows above y1, and
        row y1 as well when the lower edge is flat. */
    method FillUpperRows(x0: int16, y0: int16, x1: int16, y1: int16, x2: int16, y2: int16) returns (y: int16)
      requires y0 <= y1 <= y2 && y0 < y2 < 0x7FFF && -0x8000 < y1 && y2 - y0 < 0x8000
      requires Max3(x0, x1, x2) - Min3(x0, x1, x2) < 0x8000
      modifies this
      ensures y == if y1 == y2 then y2 + 1 else y1
      ensures RowsDrawn(old(painted), painted, Pixel(x0, y0), Pixel(x1, y1), Pixel(x2, y2), y)
      ensures writes == old(writes) + PixelsAbove(Pixel(x0, y0), Pixel(x1, y1), Pixel(x2, y2), y)
    {
      hide SpanEnds, TruncDiv;
      ghost var v0, v1, v2 := Pixel(x0, y0), Pixel(x1, y1), Pixel(x2, y2);
      var dx01: int16, dy01: int16 := x1 - x0, y1 - y0;
      var dx02: int16, dy02: int16 := x2 - x0, y2 - y0;
      var sa: int32, sb: int32 := 0, 0;
      var a: int16, b: int16, last: int16;

      if y1 == y2 {
        last := y1;
      } else {
        last := ToInt16(y1 - 1);
      }

      y := y0;
      while y <= last
        invariant y0 <= y <= last + 1
        invariant sa == dx01 * (y - y0) && sb == dx02 * (y - y0)
        invariant RowsDrawn(old(painted), painted, v0, v1, v2, y)
        invariant writes == old(writes) + PixelsAbove(v0, v1, v2, y)
        decreases last - y
      {
        ghost var was := painted;
        RunningSum(dx01, y - y0);
        RunningSum(dx02, y - y0);
        SpanInBox(v0, v1, v2, y);
        UpperSpan(v0, v1, v2, y, sa, sb);
        a := x0 + TruncDiv(sa, dy01);
        b := x0 + TruncDiv(sb, dy02);
        sa := sa + dx01;
        sb := sb + dx02;
        WriteSpan(a, b, y);
        RowAdded(old(painted), was, painted, v0, v1, v2, y, a, b);
        y := y + 1;
      }
    }

    /** The second scanline loop, from the row y where the first one stopped. */
    method FillLowerRows(x0: int16, y0: int16, x1: int16, y1: int16, x2: int16, y2: int16, start: int16,
                         ghost before: set<Pixel>)
      requires y0 <= y1 <= y2 && y0 < y2 < 0x7FFF && y2 - y0 < 0x8000
      requires start == if y1 == y2 then y2 + 1 else y1
      requires RowsDrawn(before, painted, Pixel(x0, y0), Pixel(x1, y1), Pixel(x2, y2), start)
      requires Max3(x0, x1, x2) - Min3(x0, x1, x2) < 0x8000
      modifies this
      ensures RowsDrawn(before, painted, Pixel(x0, y0), Pixel(x1, y1), Pixel(x2, y2), y2 + 1)
      ensures writes == old(writes) + PixelsAbove(Pixel(x0, y0), Pixel(x1, y1), Pixel(x2, y2), y2 + 1)
        - PixelsAbove(Pixel(x0, y0), Pixel(x1, y1), Pixel(x2, y2), start)
    {
      hide SpanEnds, TruncDiv;
      ghost var v0, v1, v2 := Pixel(x0, y0), Pixel(x1, y1), Pixel(x2, y2);
      var dx02: int16, dy02: int16 := x2 - x0, y2 - y0;
      var dx12: int16, dy12: int16 := x2 - x1, y2 - y1;
      var a: int16, b: int16, y: int16 := 0, 0, start;
      RunningSum(dx12, y - y1);
      RunningSum(dx02, y - y0);
      var sa: int32 := dx12 * (y - y1);
      var sb: int32 := dx02 * (y - y0);
      while y <= y2
        invariant start <= y <= y2 + 1
        invariant sa == dx12 * (y - y1) && sb == dx02 * (y - y0)
        invariant RowsDrawn(before, painted, v0, v1, v2, y)
        invariant writes == old(writes) + PixelsAbove(v0, v1, v2, y) - PixelsAbove(v0, v1, v2, start)
        decreases y2 - y
      {
        ghost var was := painted;
        RunningSum(dx12, y - y1);
        RunningSum(dx02, y - y0);
        SpanInBox(v0, v1, v2, y);
        LowerSpan(v0, v1, v2, y, sa, sb);
        a := x1 + TruncDiv(sa, dy12);
        b := x0 + TruncDiv(sb, dy02);
        sa := sa + dx12;
        sb := sb + dx02;
        WriteSpan(a, b, y);
        RowAdded(before, was, painted, v0, v1, v2, y, a, b);
        y := y + 1;
      }
    }
  }
}
