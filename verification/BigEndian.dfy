/** Integers as byte strings, most significant byte first. */
module BigEndian {
  import opened MachineInts
  import opened ByteQueue

  function Pow256(n: nat): nat {
    if n == 0 then 1 else 256 * Pow256(n - 1)
  }

  function Pow2(n: nat): nat {
    if n == 0 then 1 else 2 * Pow2(n - 1)
  }

  /** The k low bytes of d, in two's complement if d is negative. */
  function Digits(d: int, k: nat): (s: Bytes)
    ensures |s| == k
    decreases k
  {
    if k == 0 then [] else Digits(d / 256, k - 1) + [d % 256]
  }

  function Value(s: Bytes): nat {
    if s == [] then 0 else Value(s[..|s| - 1]) * 256 + s[|s| - 1]
  }

  /** The value of the bytes as a signed number. */
  function Signed(s: Bytes): int {
    if 2 * Value(s) < Pow256(|s|) then Value(s) else Value(s) - Pow256(|s|)
  }

  function Number(s: Bytes, signed: bool): int {
    if signed then Signed(s) else Value(s)
  }

  /** The numbers of a type of k bytes. */
  predicate IsNumber(d: int, k: nat, signed: bool) {
    if signed then 0 <= 2 * d + Pow256(k) < 2 * Pow256(k) else 0 <= d < Pow256(k)
  }

  /** The bytes determine a number up to multiples of 256 to the power of k. */
  lemma {:induction false} ValueOfDigits(d: int, k: nat)
    ensures 0 < Pow256(k) && Value(Digits(d, k)) == d % Pow256(k)
    decreases k
  {
    PowPositive(k);
    if k > 0 {
      ValueOfDigits(d / 256, k - 1);
      assert Digits(d, k)[..k - 1] == Digits(d / 256, k - 1);
      DigitSplit(d, Pow256(k - 1));
    }
  }

  lemma DigitSplit(d: int, p: nat)
    requires 0 < p
    ensures d % (256 * p) == d / 256 % p * 256 + d % 256
  {
    var m := d / 256;
    Division(d, 256);
    Division(m, p);
    MulStep(256, m % p, p);
    DivModUnique(d, 256 * p, m / p, 256 * (m % p) + d % 256);
  }

  lemma {:induction false} DigitsPeriodic(d: int, k: nat)
    ensures Digits(d - Pow256(k), k) == Digits(d, k)
    decreases k
  {
    if k > 0 {
      DigitsPeriodic(d / 256, k - 1);
      Division(d, 256);
      DivModUnique(d - Pow256(k), 256, d / 256 - Pow256(k - 1), d % 256);
    }
  }

  lemma LowByte(m: nat, c: uint8)
    ensures (m * 256 + c) / 256 == m && (m * 256 + c) % 256 == c
  {
  }

  /** And the bytes are recovered from the number. */
  lemma {:induction false} DigitsOfValue(s: Bytes)
    ensures Value(s) < Pow256(|s|) && Digits(Value(s), |s|) == s
  {
    if s != [] {
      var t, c := s[..|s| - 1], s[|s| - 1];
      DigitsOfValue(t);
      LowByte(Value(t), c);
      assert Digits(Value(s), |s|) == t + [c];
      assert Pow256(|s|) == 256 * Pow256(|t|);
    }
  }

  /** Numbers of a type of k bytes are in correspondence with strings of k bytes. */
  lemma NumberOfDigits(d: int, k: nat, signed: bool)
    requires IsNumber(d, k, signed)
    ensures Number(Digits(d, k), signed) == d
  {
    ValueOfDigits(d, k);
    if d < 0 {
      DivModUnique(d, Pow256(k), -1, d + Pow256(k));
    } else {
      DivModUnique(d, Pow256(k), 0, d);
    }
  }

  lemma DigitsOfNumber(s: Bytes, signed: bool)
    ensures IsNumber(Number(s, signed), |s|, signed) && Digits(Number(s, signed), |s|) == s
  {
    hide Value, Digits, Pow256;
    DigitsOfValue(s);
    DigitsPeriodic(Value(s), |s|);
  }

  lemma EightBits(m: nat)
    ensures Pow2(m + 8) == 256 * Pow2(m)
  {
    FourBits(m);
    FourBits(m + 4);
  }

  lemma FourBits(m: nat)
    ensures Pow2(m + 4) == 16 * Pow2(m)
  {
    assert Pow2(m + 1) == 2 * Pow2(m);
    assert Pow2(m + 2) == 2 * Pow2(m + 1);
    assert Pow2(m + 3) == 2 * Pow2(m + 2);
    assert Pow2(m + 4) == 2 * Pow2(m + 3);
  }

  lemma {:induction false} ShiftIsPower(n: nat)
    ensures Pow2(8 * n) == Pow256(n)
  {
    if n > 0 {
      ShiftIsPower(n - 1);
      EightBits(8 * (n - 1));
    }
  }

  lemma {:induction false} PowPositive(n: nat)
    ensures 0 < Pow2(n) && 0 < Pow256(n)
  {
    if n > 0 {
      PowPositive(n - 1);
    }
  }

  /** The byte i places from the end is what a shift by 8 * i bits brings to the bottom. */
  lemma {:induction false} DigitByShift(d: int, k: nat, i: nat)
    requires i < k
    ensures 0 < Pow256(i) && Digits(d, k)[k - 1 - i] == d / Pow256(i) % 256
    decreases k
  {
    PowPositive(i);
    if i > 0 {
      PowPositive(i - 1);
      DigitByShift(d / 256, k - 1, i - 1);
      DivDiv(d, 256, Pow256(i - 1));
    }
  }

  lemma DivDiv(d: int, a: nat, b: nat)
    requires 0 < a && 0 < b
    ensures 0 < a * b && d / a / b == d / (a * b)
  {
    var m, r := d / a, d % a;
    var q, u := m / b, m % b;
    Division(d, a);
    Division(m, b);
    MulStep(a, u, b);
    Nested(a, b, q, u, r);
    DivModUnique(d, a * b, q, a * u + r);
  }

  lemma Division(d: int, a: nat)
    requires 0 < a
    ensures d == a * (d / a) + d % a && d % a < a
  {
  }

  lemma Nested(a: nat, b: nat, q: int, u: nat, r: nat)
    requires 0 < a && 0 < b
    ensures a * (b * q + u) + r == a * b * q + (a * u + r) && 0 < a * b
  {
  }

  /** Splitting a byte string splits its value at a power of 256. */
  lemma {:induction false} ValueSplit(s: Bytes, t: Bytes)
    ensures Value(s + t) == Value(s) * Pow256(|t|) + Value(t)
  {
    if t == [] {
      assert s + t == s;
    } else {
      var u, c := t[..|t| - 1], t[|t| - 1];
      ValueSplit(s, u);
      assert (s + t)[..|s + t| - 1] == s + u;
      assert Value(s) * Pow256(|u|) * 256 == Value(s) * (256 * Pow256(|u|));
    }
  }

  lemma HigherByte(c: uint8, rest: Bytes, i: nat, power: nat)
    requires |rest| == i && power == Pow256(i)
    ensures Value([c] + rest) == Value(rest) + c * power
  {
    ValueSplit([c], rest);
    assert Value([c]) == c;
  }

  /** The low byte of d shifted right by the given number of bits. */
  function ShiftedByte(d: int, bits: nat): uint8 {
    PowPositive(bits);
    d / Pow2(bits) % 256
  }

  lemma DigitByBits(d: int, k: nat, i: nat, bits: nat)
    requires i < k && bits == 8 * i
    ensures Digits(d, k)[k - 1 - i] == ShiftedByte(d, bits)
  {
    ShiftIsPower(i);
    DigitByShift(d, k, i);
  }

  /** The k bytes of d in the memory of the target, which has the low byte first. */
  function InMemory(d: int, k: nat): Bytes {
    seq(k, i requires 0 <= i < k => ShiftedByte(d, 8 * i))
  }

  function Reversed(s: Bytes): Bytes {
    seq(|s|, i requires 0 <= i < |s| => s[|s| - 1 - i])
  }

  lemma MemoryIsReversed(d: int, k: nat)
    ensures InMemory(d, k) == Reversed(Digits(d, k))
  {
    hide ShiftedByte;
    forall i | 0 <= i < k
      ensures InMemory(d, k)[i] == Reversed(Digits(d, k))[i]
    {
      DigitByBits(d, k, i, 8 * i);
    }
  }

  /** Reading at the offset at which a value was serialized gives it back, whatever surrounds it;
      serializing what was read gives back the bytes. */
  lemma SerializeRead(p: Bytes, q: Bytes, d: int, k: nat, signed: bool)
    requires IsNumber(d, k, signed)
    ensures var s := p + Digits(d, k) + q;
      s[|p|..|p| + k] == Digits(d, k) && Number(s[|p|..|p| + k], signed) == d
  {
    NumberOfDigits(d, k, signed);
    assert (p + Digits(d, k) + q)[|p|..|p| + k] == Digits(d, k);
  }

  lemma ReadSerialize(s: Bytes, i: nat, k: nat, signed: bool)
    requires i + k <= |s|
    ensures var d := Number(s[i..i + k], signed);
      IsNumber(d, k, signed) && Digits(d, k) == s[i..i + k]
  {
    DigitsOfNumber(s[i..i + k], signed);
  }

  /** There is no little-endian reading: what was serialized low byte first is read back correctly
      if and only if its bytes are the same in either order. */
  lemma LittleEndianReadIff(d: int, k: nat, signed: bool)
    requires IsNumber(d, k, signed)
    ensures Number(InMemory(d, k), signed) == d <==> Reversed(Digits(d, k)) == Digits(d, k)
  {
    MemoryIsReversed(d, k);
    NumberOfDigits(d, k, signed);
    DigitsOfNumber(Reversed(Digits(d, k)), signed);
  }

  /** The number 1 in two bytes comes back as 256. */
  lemma LittleEndianWitness()
    ensures InMemory(1, 2) == [1, 0] && Number(InMemory(1, 2), false) == 256
  {
    MemoryIsReversed(1, 2);
    assert Digits(1, 2) == Digits(0, 1) + [1] == [0, 1];
    assert [1, 0][..1] == [1] && Value([1]) == 1;
  }
}
