/** Hexadecimal text of byte strings. */
module Hex {
  import opened MachineInts
  import opened ByteQueue

  // ASCII codes
  const ZERO: uint8 := 48
  const NINE: uint8 := 57
  const UPPER_A: uint8 := 65
  const UPPER_F: uint8 := 70
  const LOWER_A: uint8 := 97
  const LOWER_F: uint8 := 102

  /** Value of a hexadecimal digit in either case, or -1. */
  function DigitValue(c: uint8): (v: int)
    ensures -1 <= v < 16
  {
    if ZERO <= c <= NINE then c - ZERO
    else if UPPER_A <= c <= UPPER_F then c - UPPER_A + 10
    else if LOWER_A <= c <= LOWER_F then c - LOWER_A + 10
    else -1
  }

  predicate IsHexDigit(c: uint8) {
    DigitValue(c) != -1
  }

  function UpperDigit(v: int): uint8
    requires 0 <= v < 16
  {
    if v < 10 then ZERO + v else UPPER_A + v - 10
  }

  function LowerDigit(v: int): uint8
    requires 0 <= v < 16
  {
    if v < 10 then ZERO + v else LOWER_A + v - 10
  }

  function ToUpper(c: uint8): uint8 {
    if LOWER_A <= c <= LOWER_F then c - (LOWER_A - UPPER_A) else c
  }

  function AllUpper(s: Bytes): (u: Bytes)
    ensures |u| == |s|
  {
    seq(|s|, i requires 0 <= i < |s| => ToUpper(s[i]))
  }

  function ByteText(x: uint8): Bytes {
    [UpperDigit(x / 16), UpperDigit(x % 16)]
  }

  /** Two digits for each of the first n bytes, and the separator, unless it is 0, after each byte
      but the last of the whole string. */
  function TextUpTo(b: Bytes, separator: uint8, n: nat): Bytes
    requires n <= |b|
  {
    if n == 0 then [] else
      TextUpTo(b, separator, n - 1)
      + ByteText(b[n - 1])
      + if n == |b| || separator == 0 then [] else [ToUpper(separator)]
  }

  function Encode(b: Bytes, separator: uint8): Bytes {
    TextUpTo(b, separator, |b|)
  }

  /** Formatting one more byte in lower case and putting it in upper case. */
  lemma TextNext(b: Bytes, separator: uint8, n: nat, s: Bytes)
    requires n < |b| && AllUpper(s) == TextUpTo(b, separator, n)
    ensures var t := s + [LowerDigit(b[n] / 16), LowerDigit(b[n] % 16)];
      AllUpper(if n != |b| - 1 && separator != 0 then t + [separator] else t) == TextUpTo(b, separator, n + 1)
  {
    UpperOfLower(b[n]);
    var pair := [LowerDigit(b[n] / 16), LowerDigit(b[n] % 16)];
    UpperAppend(s, pair);
    UpperAppend(s + pair, [separator]);
  }

  lemma UpperAppend(s: Bytes, t: Bytes)
    ensures AllUpper(s + t) == AllUpper(s) + AllUpper(t)
  {
  }

  lemma UpperOfLower(x: uint8)
    ensures AllUpper([LowerDigit(x / 16), LowerDigit(x % 16)]) == ByteText(x)
  {
  }

  /** The digits of a text, skipping everything else. */
  function DigitsOf(s: Bytes): Bytes {
    if s == [] then [] else
      DigitsOf(s[..|s| - 1]) + if IsHexDigit(s[|s| - 1]) then [s[|s| - 1]] else []
  }

  function EvenPart(n: nat): nat {
    n - n % 2
  }

  function PairValue(hi: uint8, lo: uint8): uint8 {
    if IsHexDigit(hi) && IsHexDigit(lo) then DigitValue(hi) * 16 + DigitValue(lo) else 0
  }

  /** The bytes that pairs of digits stand for; an odd last digit is ignored. */
  function Paired(d: Bytes): Bytes {
    seq(|d| / 2, i requires 0 <= i < |d| / 2 => PairValue(d[2 * i], d[2 * i + 1]))
  }

  lemma {:induction false} DigitsAreDigits(s: Bytes)
    ensures forall i | 0 <= i < |DigitsOf(s)| :: IsHexDigit(DigitsOf(s)[i])
  {
    if s != [] {
      DigitsAreDigits(s[..|s| - 1]);
    }
  }

  function Decode(s: Bytes): Bytes {
    Paired(DigitsOf(s))
  }

  lemma DigitsAppend(s: Bytes, c: uint8)
    ensures DigitsOf(s + [c]) == DigitsOf(s) + if IsHexDigit(c) then [c] else []
  {
    assert (s + [c])[..|s|] == s;
  }

  lemma DigitRoundTrip(v: int)
    requires 0 <= v < 16
    ensures DigitValue(UpperDigit(v)) == v
  {
  }

  /** The digits are the characters of the two tables, and no other character is a digit. */
  lemma DigitTable(v: nat)
    requires v < 16
    ensures UpperDigit(v) == "0123456789ABCDEF"[v] as int && LowerDigit(v) == "0123456789abcdef"[v] as int
    ensures DigitValue("0123456789ABCDEF"[v] as int) == v && DigitValue("0123456789abcdef"[v] as int) == v
  {
  }

  lemma NoOtherDigit(c: uint8)
    ensures DigitValue(c) == -1 <==>
      forall v | 0 <= v < 16 :: c != "0123456789ABCDEF"[v] as int && c != "0123456789abcdef"[v] as int
  {
    if DigitValue(c) != -1 {
      DigitFound(c);
    } else {
      forall v | 0 <= v < 16
        ensures c != "0123456789ABCDEF"[v] as int && c != "0123456789abcdef"[v] as int
      {
        DigitTable(v);
      }
    }
  }

  lemma DigitFound(c: uint8)
    requires DigitValue(c) != -1
    ensures c == "0123456789ABCDEF"[DigitValue(c)] as int || c == "0123456789abcdef"[DigitValue(c)] as int
  {
  }

  /** Where everything is in the text: two digits for each byte, in groups of two, or of three with the
      separator, and a separator from 'a' to 'f' in upper case too. */
  lemma EncodeAt(b: Bytes, separator: uint8, i: nat)
    requires i < |b|
    ensures var t, k := Encode(b, separator), if separator == 0 then 2 else 3;
      && |t| == k * |b| - (k - 2)
      && t[k * i] == "0123456789ABCDEF"[b[i] / 16] as int
      && t[k * i + 1] == "0123456789ABCDEF"[b[i] % 16] as int
      && (separator != 0 && i + 1 < |b| ==>
            t[k * i + 2] == if 'a' as int <= separator <= 'f' as int then separator - 32 else separator)
  {
    TextAt(b, separator, |b|, i);
    DigitTable(b[i] / 16);
    DigitTable(b[i] % 16);
  }

  lemma {:induction false} TextAt(b: Bytes, separator: uint8, n: nat, i: nat)
    requires i < n <= |b|
    ensures var t, k := TextUpTo(b, separator, n), if separator == 0 then 2 else 3;
      && |t| == k * n - (if n == |b| then k - 2 else 0)
      && t[k * i] == UpperDigit(b[i] / 16) && t[k * i + 1] == UpperDigit(b[i] % 16)
      && (separator != 0 && i + 1 < |b| ==> t[k * i + 2] == ToUpper(separator))
  {
    TextLength(b, separator, n - 1);
    if i < n - 1 {
      TextAt(b, separator, n - 1, i);
    }
  }

  lemma {:induction false} TextLength(b: Bytes, separator: uint8, n: nat)
    requires n < |b|
    ensures |TextUpTo(b, separator, n)| == n * if separator == 0 then 2 else 3
  {
    if n > 0 {
      TextLength(b, separator, n - 1);
    }
  }

  /** Encoding and decoding is the identity, for any separator that is not itself a digit. */
  lemma {:induction false} DecodeEncode(b: Bytes, separator: uint8)
    requires !IsHexDigit(separator)
    ensures Decode(Encode(b, separator)) == b
  {
    EncodedPrefix(b, separator, |b|);
    assert b[..|b|] == b;
  }

  lemma {:induction false} EncodedPrefix(b: Bytes, separator: uint8, n: nat)
    requires n <= |b| && !IsHexDigit(separator)
    ensures |DigitsOf(TextUpTo(b, separator, n))| == 2 * n
    ensures Decode(TextUpTo(b, separator, n)) == b[..n]
  {
    if n > 0 {
      hide Decode, DigitsOf, ByteText;
      EncodedPrefix(b, separator, n - 1);
      TextStep(b, separator, n);
      EncodedStep(TextUpTo(b, separator, n - 1), b[n - 1], separator, TextUpTo(b, separator, n));
      assert b[..n] == b[..n - 1] + [b[n - 1]];
    }
  }

  lemma EncodedStep(t: Bytes, x: uint8, separator: uint8, t': Bytes)
    requires !IsHexDigit(separator) && |DigitsOf(t)| % 2 == 0
    requires t' == t + ByteText(x) || t' == t + ByteText(x) + [ToUpper(separator)]
    ensures |DigitsOf(t')| == |DigitsOf(t)| + 2 && Decode(t') == Decode(t) + [x]
  {
    DecodeByteText(t, x, separator);
  }

  lemma TextStep(b: Bytes, separator: uint8, n: nat)
    requires 0 < n <= |b|
    ensures var t := TextUpTo(b, separator, n - 1) + ByteText(b[n - 1]);
      TextUpTo(b, separator, n) == t || TextUpTo(b, separator, n) == t + [ToUpper(separator)]
  {
  }

  lemma DecodeByteText(t: Bytes, x: uint8, separator: uint8)
    requires !IsHexDigit(separator) && |DigitsOf(t)| % 2 == 0
    ensures |DigitsOf(t + ByteText(x))| == |DigitsOf(t)| + 2
    ensures |DigitsOf(t + ByteText(x) + [ToUpper(separator)])| == |DigitsOf(t)| + 2
    ensures Decode(t + ByteText(x)) == Decode(t) + [x]
    ensures Decode(t + ByteText(x) + [ToUpper(separator)]) == Decode(t) + [x]
  {
    PairRoundTrip(x);
    DecodePair(t, UpperDigit(x / 16), UpperDigit(x % 16), separator);
  }

  lemma PairRoundTrip(x: uint8)
    ensures IsHexDigit(UpperDigit(x / 16)) && IsHexDigit(UpperDigit(x % 16))
    ensures PairValue(UpperDigit(x / 16), UpperDigit(x % 16)) == x
  {
    DigitRoundTrip(x / 16);
    DigitRoundTrip(x % 16);
  }

  lemma DecodePair(t: Bytes, hi: uint8, lo: uint8, separator: uint8)
    requires IsHexDigit(hi) && IsHexDigit(lo) && !IsHexDigit(separator) && |DigitsOf(t)| % 2 == 0
    ensures |DigitsOf(t + [hi, lo])| == |DigitsOf(t)| + 2
    ensures |DigitsOf(t + [hi, lo] + [ToUpper(separator)])| == |DigitsOf(t)| + 2
    ensures Decode(t + [hi, lo]) == Decode(t) + [PairValue(hi, lo)]
    ensures Decode(t + [hi, lo] + [ToUpper(separator)]) == Decode(t) + [PairValue(hi, lo)]
  {
    DigitsOfPair(t, hi, lo, separator);
    PairedAppend(DigitsOf(t), hi, lo);
  }

  lemma DigitsOfPair(t: Bytes, hi: uint8, lo: uint8, separator: uint8)
    requires IsHexDigit(hi) && IsHexDigit(lo) && !IsHexDigit(separator)
    ensures DigitsOf(t + [hi, lo]) == DigitsOf(t) + [hi, lo]
    ensures DigitsOf(t + [hi, lo] + [ToUpper(separator)]) == DigitsOf(t) + [hi, lo]
  {
    UpperIsNoDigit(separator);
    hide DigitsOf, IsHexDigit, ToUpper;
    DigitsAppend(t, hi);
    DigitsAppend(t + [hi], lo);
    assert t + [hi] + [lo] == t + [hi, lo];
    assert DigitsOf(t) + [hi] + [lo] == DigitsOf(t) + [hi, lo];
    DigitsAppend(t + [hi, lo], ToUpper(separator));
  }

  lemma UpperIsNoDigit(c: uint8)
    ensures IsHexDigit(ToUpper(c)) <==> IsHexDigit(c)
  {
  }

  lemma PairedAppend(d: Bytes, hi: uint8, lo: uint8)
    requires |d| % 2 == 0
    ensures Paired(d + [hi, lo]) == Paired(d) + [PairValue(hi, lo)]
  {
    assert |d + [hi, lo]| / 2 == |d| / 2 + 1;
  }

  lemma PairedNext(d: Bytes, c: uint8)
    requires |d| % 2 == 1
    ensures Paired(d + [c]) == Paired(d) + [PairValue(d[|d| - 1], c)]
  {
    var e, last := d[..|d| - 1], d[|d| - 1];
    PairedAppend(e, last, c);
    assert d + [c] == e + [last, c];
    assert Paired(d) == Paired(e);
  }

  lemma PairedPending(d: Bytes, c: uint8)
    requires |d| % 2 == 0
    ensures Paired(d + [c]) == Paired(d)
  {
    assert |d + [c]| / 2 == |d| / 2;
  }

  /** The value of the first digit of an unfinished pair, or -1. */
  function Pending(t: Bytes): (v: int)
    ensures -1 <= v < 16
  {
    if |DigitsOf(t)| % 2 == 1 then DigitValue(DigitsOf(t)[|DigitsOf(t)| - 1]) else -1
  }

  /** What one more character does to a decoded text. */
  lemma DecodeNext(t: Bytes, c: uint8)
    ensures DigitValue(c) == -1 ==> Decode(t + [c]) == Decode(t) && Pending(t + [c]) == Pending(t)
    ensures DigitValue(c) != -1 && Pending(t) == -1 ==>
      Decode(t + [c]) == Decode(t) && Pending(t + [c]) == DigitValue(c)
    ensures DigitValue(c) != -1 && Pending(t) != -1 ==>
      Decode(t + [c]) == Decode(t) + [Pending(t) * 16 + DigitValue(c)] && Pending(t + [c]) == -1
  {
    DigitsAppend(t, c);
    DigitsAreDigits(t);
    if IsHexDigit(c) {
      if |DigitsOf(t)| % 2 == 1 {
        PairedNext(DigitsOf(t), c);
      } else {
        PairedPending(DigitsOf(t), c);
      }
    }
  }

  /** Decoding and encoding keeps the digits of the text, in upper case and cut to even length. */
  lemma {:induction false} EncodeDecode(s: Bytes)
    ensures Encode(Decode(s), 0) == AllUpper(DigitsOf(s)[..EvenPart(|DigitsOf(s)|)])
  {
    DigitsAreDigits(s);
    EncodePaired(DigitsOf(s));
  }

  lemma {:induction false} EncodePaired(d: Bytes)
    requires forall i | 0 <= i < |d| :: IsHexDigit(d[i])
    ensures Encode(Paired(d), 0) == AllUpper(d[..EvenPart(|d|)])
  {
    hide Paired, AllUpper, IsHexDigit;
    if |d| < 2 {
      EncodeShort(d);
    } else if |d| % 2 == 1 {
      EncodePaired(d[..|d| - 1]);
      PairedPending(d[..|d| - 1], d[|d| - 1]);
      assert d[..|d| - 1] + [d[|d| - 1]] == d;
      assert d[..|d| - 1][..EvenPart(|d| - 1)] == d[..EvenPart(|d|)];
    } else {
      var n, hi, lo := |d|, d[|d| - 2], d[|d| - 1];
      EncodePaired(d[..n - 2]);
      EvenPrefixes(d);
      PairedAppend(d[..n - 2], hi, lo);
      assert d[..n - 2] + [hi, lo] == d;
      EncodeAppend(Paired(d[..n - 2]), hi, lo);
    }
  }

  lemma EncodeShort(d: Bytes)
    requires |d| < 2
    ensures Encode(Paired(d), 0) == AllUpper(d[..EvenPart(|d|)])
  {
  }

  lemma EvenPrefixes(d: Bytes)
    requires 2 <= |d| && |d| % 2 == 0
    ensures d[..EvenPart(|d|)] == d && d[..|d| - 2][..EvenPart(|d| - 2)] == d[..|d| - 2]
    ensures AllUpper(d) == AllUpper(d[..|d| - 2]) + [ToUpper(d[|d| - 2]), ToUpper(d[|d| - 1])]
  {
  }

  lemma EncodeAppend(b: Bytes, hi: uint8, lo: uint8)
    requires IsHexDigit(hi) && IsHexDigit(lo)
    ensures Encode(b + [PairValue(hi, lo)], 0) == Encode(b, 0) + [ToUpper(hi), ToUpper(lo)]
  {
    TextOfPrefix(b, [PairValue(hi, lo)], |b|);
    UpperOfValue(hi);
    UpperOfValue(lo);
  }

  lemma UpperOfValue(c: uint8)
    requires IsHexDigit(c)
    ensures UpperDigit(DigitValue(c)) == ToUpper(c)
  {
  }

  /** Without a separator the text of a prefix does not depend on what follows. */
  lemma {:induction false} TextOfPrefix(b: Bytes, c: Bytes, n: nat)
    requires n <= |b|
    ensures TextUpTo(b + c, 0, n) == TextUpTo(b, 0, n)
  {
    if n > 0 {
      TextOfPrefix(b, c, n - 1);
    }
  }
}
