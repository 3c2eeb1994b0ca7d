/** Fixed-width integers of the target, as subsets of the mathematical integers.
    A value stored in a variable of one of these types is checked to fit, which is the proof that
    the C++ assignment does not truncate; where the program does truncate, it is written out. */
module MachineInts {

  type int16 = v: int | -0x8000 <= v < 0x8000
  type int32 = v: int | -0x8000_0000 <= v < 0x8000_0000
  type uint8 = v: int | 0 <= v < 0x100
  type uint16 = v: int | 0 <= v < 0x1_0000
  type uint32 = v: int | 0 <= v < 0x1_0000_0000

  /** Conversion of an int expression to int16_t: reduction modulo 2^16. */
  function ToInt16(v: int): int16 {
    (v + 0x8000) % 0x1_0000 - 0x8000
  }

  function ToUInt8(v: int): uint8 {
    v % 0x100
  }

  function ToUInt32(v: int): uint32 {
    v % 0x1_0000_0000
  }

  predicate FitsInt16(v: int) {
    -0x8000 <= v < 0x8000
  }

  lemma Fits(v: int)
    requires FitsInt16(v)
    ensures ToInt16(v) == v
  {
  }

  /** C++ integer division: the quotient is rounded toward zero. */
  function TruncDiv(n: int, d: int): int
    requires d != 0
  {
    if n < 0 then -(-n / d) else n / d
  }

  lemma MulStep(n: nat, a: int, b: int)
    requires a < b
    ensures n * a + n <= n * b && a * n + n <= b * n
  {
    var e := b - a - 1;
    assert n * (a + 1 + e) == n * a + n + n * e;
    assert n * a == a * n && n * b == b * n;
  }

  lemma MulMono(a: int, b: int, c: int, d: int)
    requires 0 <= a <= c && 0 <= b <= d
    ensures 0 <= a * b <= c * d
  {
    assert a * b <= c * b;
    assert c * b <= c * d;
  }

  /** Quotient and remainder are determined by their defining equation. */
  lemma DivModUnique(n: int, k: nat, q: int, r: int)
    requires 0 < k && n == k * q + r && 0 <= r < k
    ensures n / k == q && n % k == r
  {
    assert n == k * (n / k) + n % k;
    if n / k < q {
      MulStep(k, n / k, q);
    } else if q < n / k {
      MulStep(k, q, n / k);
    }
  }

  lemma WrapEqual(a: int, b: int)
    requires a == b
    ensures ToUInt32(a) == ToUInt32(b)
  {
  }

  lemma WrapSmall(v: int)
    requires 0 <= v < 0x1_0000_0000
    ensures ToUInt32(v) == v
  {
  }
}
