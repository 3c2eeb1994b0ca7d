/** Pixels, the integer functions the drawing definitions share, and coordinates that wrap around at
    the end of int16. */
module Raster {
  import opened MachineInts

  datatype Pixel = Pixel(x: int, y: int)

  function Abs(v: int): nat {
    if v < 0 then -v else v
  }

  function Min(a: int, b: int): int {
    if a < b then a else b
  }

  function Max(a: int, b: int): int {
    if a < b then b else a
  }

  /** A horizontal run of pixels is a set of its length. */
  lemma RowSet(y: int, lo: int, hi: int) returns (s: set<Pixel>)
    requires lo <= hi + 1
    ensures |s| == hi - lo + 1 && forall p: Pixel :: p in s <==> p.y == y && lo <= p.x <= hi
    decreases hi + 1 - lo
  {
    s := {};
    if lo <= hi {
      s := RowSet(y, lo, hi - 1);
      s := s + {Pixel(hi, y)};
    }
  }

  predicate OnDevice(p: Pixel) {
    FitsInt16(p.x) && FitsInt16(p.y)
  }

  /** How far v is from c, going around whichever way is shorter. */
  function Offset(v: int, c: int): int16 {
    ToInt16(v - c)
  }

  lemma OffsetOf(c: int16, d: int16, v: int)
    ensures v == ToInt16(c + d) <==> FitsInt16(v) && Offset(v, c) == d
  {
    if FitsInt16(v) {
      WrapsTo(c + d, v);
      WrapsTo(v - c, d);
    }
  }

  lemma WrapsTo(n: int, v: int16)
    requires -0x1_0000 <= n <= 0x1_0000
    ensures ToInt16(n) == v <==> v == n || v == n + 0x1_0000 || v == n - 0x1_0000
  {
    var q := (n + 0x8000) / 0x1_0000;
    assert n + 0x8000 == 0x1_0000 * q + (n + 0x8000) % 0x1_0000;
    assert -1 <= q <= 1;
  }

  /** An offset is the difference if no coordinate wraps around on the way. */
  lemma PlainOffset(v: int16, c: int16)
    ensures FitsInt16(c + Offset(v, c)) || FitsInt16(v - c) ==> Offset(v, c) == v - c
  {
    WrapsTo(v - c, Offset(v, c));
  }

  predicate InRect(x: int, y: int, w: int, h: int, p: Pixel) {
    x <= p.x < x + w && y <= p.y < y + h
  }

  /** The n coordinates from x on, going around at the end of int16. */
  predicate InSpan(x: int, n: int, v: int) {
    FitsInt16(v) && (v - x) % 0x1_0000 < n
  }

  predicate InWrappedRect(x: int, y: int, w: int, h: int, p: Pixel) {
    InSpan(x, w, p.x) && InSpan(y, h, p.y)
  }

  lemma SpanStep(x: int16, n: int)
    requires 0 <= n < 0x8000
    ensures forall v :: InSpan(x, n + 1, v) <==> InSpan(x, n, v) || v == ToInt16(x + n)
  {
    forall v | FitsInt16(v)
      ensures (v - x) % 0x1_0000 == n <==> v == ToInt16(x + n)
    {
      SpanPosition(x, n, v);
    }
  }

  lemma SpanPosition(x: int16, n: int, v: int16)
    requires 0 <= n < 0x8000
    ensures (v - x) % 0x1_0000 == n <==> v == ToInt16(x + n)
  {
    if x + n < 0x8000 {
      DivModUnique(x + n + 0x8000, 0x1_0000, 0, x + n + 0x8000);
    } else {
      DivModUnique(x + n + 0x8000, 0x1_0000, 1, x + n - 0x8000);
    }
    if v >= x {
      DivModUnique(v - x, 0x1_0000, 0, v - x);
    } else {
      DivModUnique(v - x, 0x1_0000, -1, v - x + 0x1_0000);
    }
  }

  /** The coordinate k places on, in 16 bits. */
  function Further(x: int16, k: int): int16 {
    ToInt16(x + k)
  }

  /** A span consists of x, x + 1 and so on, each in 16 bits. */
  lemma {:induction false} SpanIs(x: int16, n: nat, v: int)
    requires n <= 0x8000
    ensures InSpan(x, n, v) <==> exists k | 0 <= k < n :: v == Further(x, k)
  {
    if n > 0 {
      SpanStep(x, n - 1);
      SpanIs(x, n - 1, v);
      hide InSpan;
      assert Further(x, n - 1) == ToInt16(x + (n - 1));
    } else {
      NoSpan(x, n);
    }
  }

  lemma SpanFits(x: int16, n: int)
    requires n <= 0 || FitsInt16(x + n - 1)
    ensures forall v :: InSpan(x, n, v) <==> x <= v < x + n
  {
    forall v | FitsInt16(v)
      ensures (v - x) % 0x1_0000 < n <==> x <= v < x + n
    {
      if v >= x {
        DivModUnique(v - x, 0x1_0000, 0, v - x);
      } else {
        DivModUnique(v - x, 0x1_0000, -1, v - x + 0x1_0000);
      }
    }
  }

  /** A rectangle that does not leave the coordinates is what it looks like. */
  lemma RectFits(x: int16, y: int16, w: int, h: int)
    requires w > 0 && h > 0 ==> FitsInt16(x + w - 1) && FitsInt16(y + h - 1)
    ensures forall p :: InWrappedRect(x, y, w, h, p) <==> InRect(x, y, w, h, p)
  {
    hide InSpan;
    NoSpan(x, w);
    NoSpan(y, h);
    if w > 0 && h > 0 {
      SpanFits(x, w);
      SpanFits(y, h);
    }
  }

  lemma NoSpan(x: int, n: int)
    ensures n <= 0 ==> forall v :: !InSpan(x, n, v)
  {
  }
}
