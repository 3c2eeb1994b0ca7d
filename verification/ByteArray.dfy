/** The growable byte array. Sizes are taken to stay below the size of memory, and allocation to
    succeed, as the program does. */
module ByteArrays {
  import opened MachineInts
  import opened ByteQueue
  import opened Hex
  import opened BigEndian

  /** Copies the first n bytes of one buffer into another; the two areas must not overlap. */
  method MemCpy(dst: array<uint8>, at: nat, src: array<uint8>, n: nat)
    requires at + n <= dst.Length && n <= src.Length && (dst == src ==> n <= at)
    modifies dst
    ensures dst[..at] == old(dst[..at]) && dst[at..at + n] == old(src[..n])
  {
    forall i | 0 <= i < n {
      dst[at + i] := src[i];
    }
  }

  class ByteArray {
    var memory: array<uint8>
    var allocatedSize: nat
    var usedSize: nat
    /** How often the buffer has been moved to a larger one. */
    ghost var reallocations: nat

    ghost predicate Valid()
      reads this
    {
      memory.Length == allocatedSize && usedSize <= allocatedSize
    }

    ghost function Contents(): Bytes
      requires Valid()
      reads this, memory
    {
      memory[..usedSize]
    }

    constructor (size: nat := 0, filler: uint8 := 0)
      ensures Valid() && fresh(memory) && reallocations == 0
      ensures Contents() == seq(size, _ => filler) && allocatedSize == if 2 * size < 5 then 5 else 2 * size
    {
      var room := size * 2;
      if room < 5 {
        room := 5;
      }
      usedSize, allocatedSize, reallocations := size, room, 0;
      memory := new uint8[room](_ => filler);
    }

    constructor FromBuffer(buffer: Bytes)
      ensures Valid() && fresh(memory) && reallocations == 0
      ensures Contents() == buffer && allocatedSize == |buffer|
    {
      usedSize, allocatedSize, reallocations := |buffer|, |buffer|, 0;
      memory := new uint8[|buffer|](i requires 0 <= i < |buffer| => buffer[i]);
    }

    method Size() returns (n: nat)
      requires Valid()
      ensures n == |Contents()|
    {
      n := usedSize;
    }

    /** Grows the buffer if it is smaller than size, keeping what it holds. */
    method Reserve(size: nat)
      requires Valid()
      modifies this
      ensures Valid() && Contents() == old(Contents())
      ensures if old(allocatedSize) < size
        then fresh(memory) && allocatedSize == size && reallocations == old(reallocations) + 1
        else memory == old(memory) && allocatedSize == old(allocatedSize) && reallocations == old(reallocations)
    {
      if allocatedSize < size {
        var grown := new uint8[size](i requires 0 <= i < size reads this, memory =>
          if i < memory.Length then memory[i] else 0);
        memory, allocatedSize, reallocations := grown, size, reallocations + 1;
      }
    }

    /** Returns the index of the new byte. */
    method Append(c: uint8) returns (index: nat)
      requires Valid()
      modifies this, memory
      ensures Valid() && Contents() == old(Contents()) + [c] && index == |old(Contents())|
      ensures fresh(memory) || memory == old(memory)
      ensures if old(usedSize) == old(allocatedSize)
        then allocatedSize == old(allocatedSize) + 8 && reallocations == old(reallocations) + 1
        else allocatedSize == old(allocatedSize) && reallocations == old(reallocations)
    {
      if usedSize == allocatedSize {
        Reserve(usedSize + 8);
      }
      memory[usedSize] := c;
      index := usedSize;
      usedSize := usedSize + 1;
    }

    /** Operator +=. The argument may be the array itself, whose buffer may just have been moved. */
    method AppendAll(a: ByteArray)
      requires Valid() && a.Valid() && (a == this || a.memory != memory)
      modifies this, memory
      ensures Valid() && Contents() == old(Contents()) + old(a.Contents())
      ensures fresh(memory) || memory == old(memory)
    {
      var n := a.usedSize;
      ghost var theirs := a.Contents();
      Reserve(usedSize + n);
      assert a.memory[..n] == theirs by {
        if a == this {
          assert Contents() == theirs;
        }
      }
      MemCpy(memory, usedSize, a.memory, n);
      usedSize := usedSize + n;
      assert memory[..usedSize] == memory[..old(usedSize)] + memory[old(usedSize)..usedSize];
    }

    method Resize(size: nat, filler: uint8 := 0)
      requires Valid()
      modifies this, memory
      ensures fresh(memory) || memory == old(memory)
      ensures Valid() && Contents() ==
        if size <= |old(Contents())| then old(Contents())[..size]
        else old(Contents()) + seq(size - |old(Contents())|, _ => filler)
      ensures size <= old(allocatedSize) ==> memory == old(memory) && allocatedSize == old(allocatedSize)
    {
      if usedSize == size {
        return;
      }
      if usedSize > size {
        usedSize := size;
        return;
      }
      Reserve(size);
      forall i | usedSize <= i < size {
        memory[i] := filler;
      }
      usedSize := size;
    }

    method Clear()
      requires Valid()
      modifies this, memory
      ensures Valid() && Contents() == [] && memory == old(memory)
    {
      Resize(0);
    }

    method Swap(other: ByteArray)
      requires Valid() && other.Valid()
      modifies this, other
      ensures Valid() && other.Valid()
      ensures memory == old(other.memory) && usedSize == old(other.usedSize)
      ensures other.memory == old(memory) && other.usedSize == old(usedSize)
    {
      var a := allocatedSize;
      allocatedSize := other.allocatedSize;
      other.allocatedSize := a;
      var m := memory;
      memory := other.memory;
      other.memory := m;
      var u := usedSize;
      usedSize := other.usedSize;
      other.usedSize := u;
    }

    /** Keeps the bytes before idx and returns the rest. */
    method Split(idx: nat) returns (end: ByteArray)
      requires Valid()
      modifies this, memory
      ensures Valid() && memory == old(memory)
      ensures end.Valid() && fresh(end) && fresh(end.memory)
      ensures var k := if idx < |old(Contents())| then idx else |old(Contents())|;
        Contents() == old(Contents())[..k] && end.Contents() == old(Contents())[k..]
    {
      if idx > usedSize {
        end := new ByteArray();
        return;
      }
      if idx == usedSize {
        Resize(idx);
        end := new ByteArray();
        return;
      }
      end := new ByteArray.FromBuffer(memory[idx..usedSize]);
      Resize(idx);
    }

    /** Keeps the bytes from idx on and returns those before. */
    method ReverseSplit(idx: nat) returns (head: ByteArray)
      requires Valid()
      modifies this, memory
      ensures Valid() && fresh(memory)
      ensures head.Valid() && fresh(head) && head.memory == old(memory)
      ensures var k := if idx < |old(Contents())| then idx else |old(Contents())|;
        head.Contents() == old(Contents())[..k] && Contents() == old(Contents())[k..]
    {
      head := Split(idx);
      Swap(head);
    }

    /** The first occurrence of c at or after startPos, or the size. */
    method Find(c: uint8, startPos: nat := 0) returns (index: nat)
      requires Valid()
      ensures index == |Contents()| || (startPos <= index < |Contents()| && Contents()[index] == c)
      ensures forall k | startPos <= k < index && k < |Contents()| :: Contents()[k] != c
    {
      index := startPos;
      while index < usedSize
        invariant startPos <= index
        invariant forall k | startPos <= k < index && k < usedSize :: memory[k] != c
      {
        if memory[index] == c {
          return;
        }
        index := index + 1;
      }
      index := usedSize;
    }

    method StartsWith(prefix: Bytes) returns (r: bool)
      requires Valid()
      ensures r <==> prefix <= Contents()
    {
      if |prefix| > usedSize {
        return false;
      }
      for i := 0 to |prefix|
        invariant prefix[..i] == memory[..i]
      {
        if memory[i] != prefix[i] {
          assert Contents()[i] != prefix[i];
          return false;
        }
      }
      assert prefix == Contents()[..|prefix|];
      return true;
    }

    /** Formats a byte in lower case with a terminating zero, and cuts the array to the digits. */
    static method FormatByte(x: uint8) returns (b: ByteArray)
      ensures b.Valid() && fresh(b) && fresh(b.memory)
      ensures b.Contents() == [LowerDigit(x / 16), LowerDigit(x % 16)]
    {
      b := new ByteArray(4);
      b.memory[0], b.memory[1], b.memory[2] := LowerDigit(x / 16), LowerDigit(x % 16), 0;
      var n := b.Size();
      b.Resize(n - 2);
    }

    /** Two lower-case digits are formatted for each byte, then the whole text is put in upper case,
        separators included. */
    method AsHex(separator: uint8 := 0) returns (s: ByteArray)
      requires Valid()
      ensures s.Valid() && fresh(s) && fresh(s.memory)
      ensures s.Contents() == Encode(Contents(), separator)
    {
      s := new ByteArray();
      if usedSize == 0 {
        return;
      }
      s.Reserve(usedSize * 3);
      assert AllUpper([]) == TextUpTo(Contents(), separator, 0);
      hide AllUpper, TextUpTo;
      for i := 0 to usedSize
        invariant s.Valid() && fresh(s) && fresh(s.memory)
        invariant AllUpper(s.Contents()) == TextUpTo(Contents(), separator, i)
      {
        s.AppendFormatted(this, i, separator);
      }
      s.UpperCase();
    }

    /** One iteration of the first loop of asHex. */
    method AppendFormatted(source: ByteArray, i: nat, separator: uint8)
      requires Valid() && source.Valid() && source != this && source.memory != memory && i < source.usedSize
      requires AllUpper(Contents()) == TextUpTo(source.Contents(), separator, i)
      modifies this, memory
      ensures Valid() && (fresh(memory) || memory == old(memory))
      ensures AllUpper(Contents()) == TextUpTo(source.Contents(), separator, i + 1)
    {
      hide AllUpper, TextUpTo, LowerDigit;
      TextNext(source.Contents(), separator, i, Contents());
      var b := FormatByte(source.memory[i]);
      AppendAll(b);
      if i != source.usedSize - 1 && separator != 0 {
        var _ := Append(separator);
      }
    }

    /** The last loop of asHex. */
    method UpperCase()
      requires Valid()
      modifies memory
      ensures Valid() && Contents() == AllUpper(old(Contents()))
    {
      for i := 0 to usedSize
        invariant Contents()[i..] == old(Contents())[i..]
        invariant Contents()[..i] == AllUpper(old(Contents()))[..i]
      {
        assert memory[i] == Contents()[i..][0];
        if LOWER_A <= memory[i] <= LOWER_F {
          memory[i] := memory[i] - (LOWER_A - UPPER_A);
        }
      }
    }

    /** Digits are taken in pairs; c is the pending first digit of a pair, or -1. */
    static method FromHex(s: ByteArray) returns (b: ByteArray)
      requires s.Valid()
      ensures b.Valid() && fresh(b) && fresh(b.memory) && b.Contents() == Decode(s.Contents())
    {
      b := new ByteArray();
      var c: int := -1;
      assert Decode([]) == [] && Pending([]) == -1;
      hide Decode, Pending;
      for i := 0 to s.usedSize
        invariant b.Valid() && fresh(b) && fresh(b.memory)
        invariant b.Contents() == Decode(s.Contents()[..i])
        invariant c == Pending(s.Contents()[..i])
      {
        ghost var t := s.Contents()[..i];
        assert s.Contents()[..i + 1] == t + [s.memory[i]];
        DecodeNext(t, s.memory[i]);
        var val := -1;
        if ZERO <= s.memory[i] <= NINE {
          val := s.memory[i] - ZERO;
        } else if UPPER_A <= s.memory[i] <= UPPER_F {
          val := s.memory[i] - UPPER_A + 10;
        } else if LOWER_A <= s.memory[i] <= LOWER_F {
          val := s.memory[i] - LOWER_A + 10;
        }
        assert val == DigitValue(s.memory[i]);
        if val != -1 {
          if c != -1 {
            var _ := b.Append(c * 16 + val);
            c := -1;
          } else {
            c := val;
          }
        }
      }
      assert s.Contents()[..s.usedSize] == s.Contents();
    }

    /** The bytes of a number of the given width, most significant first or as they are in memory. */
    static method Serialize(d: int, width: nat, bigEndian: bool := true) returns (b: ByteArray)
      requires 8 * width < 0x1_0000
      ensures b.Valid() && fresh(b) && fresh(b.memory)
      ensures b.Contents() == if bigEndian then Digits(d, width) else Reversed(Digits(d, width))
    {
      hide ShiftedByte;
      if !bigEndian {
        MemoryIsReversed(d, width);
        b := new ByteArray.FromBuffer(InMemory(d, width));
        return;
      }
      b := new ByteArray(width, 0);
      ghost var digits := Digits(d, width);
      var shift: uint16 := 0;
      for i := 0 to width
        invariant b.Valid() && fresh(b) && fresh(b.memory) && b.usedSize == width && shift == 8 * i
        invariant forall m | width - i <= m < width :: b.memory[m] == digits[m]
      {
        DigitByBits(d, width, i, shift);
        b.memory[width - i - 1] := ShiftedByte(d, shift);
        shift := shift + 8;
      }
    }

    /** The number of the given width at idx, or 0 when the array is too short. The bytes are added
        up in the type of the result, which for a signed type wraps around at its upper half. */
    method Read(idx: nat, width: nat, signed: bool) returns (r: int)
      requires Valid() && idx <= |Contents()|
      ensures r == if idx + width <= |Contents()| then Number(Contents()[idx..idx + width], signed) else 0
    {
      if usedSize - idx < width {
        return 0;
      }
      r := 0;
      for i := 0 to width
        invariant r == Value(Contents()[idx + width - i..idx + width])
      {
        ShiftIsPower(i);
        ghost var c, rest := memory[idx + width - 1 - i], Contents()[idx + width - i..idx + width];
        assert Contents()[idx + width - 1 - i..idx + width] == [c] + rest;
        HigherByte(c, rest, i, Pow2(i * 8));
        r := r + memory[idx + width - 1 - i] * Pow2(i * 8);
      }
      if signed && 2 * r >= Pow256(width) {
        r := r - Pow256(width);
      }
    }
  }

  /** Number of times a default array is reallocated by n appends. */
  function Growths(n: nat): nat {
    if n <= 5 then 0 else (n - 5 + 7) / 8
  }

  /** The room of five bytes of a default array grows by eight whenever it is used up. */
  method AppendEach(data: Bytes) returns (a: ByteArray)
    ensures a.Valid() && fresh(a) && fresh(a.memory) && a.Contents() == data
    ensures a.reallocations == (if |data| <= 5 then 0 else (|data| + 2) / 8)
    ensures a.allocatedSize == 5 + 8 * a.reallocations
  {
    a := new ByteArray();
    for i := 0 to |data|
      invariant a.Valid() && fresh(a) && fresh(a.memory) && a.Contents() == data[..i]
      invariant a.reallocations == Growths(i) && a.allocatedSize == 5 + 8 * Growths(i)
    {
      var _ := a.Append(data[i]);
    }
  }
}
