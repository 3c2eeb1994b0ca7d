/** The receiving side of a UART. */
module Serials {
  import opened MachineInts
  import opened ByteQueue
  import opened Rings
  import opened CircularBuffers
  import opened ByteArrays

  const RX_BUFFER_SIZE: uint32 := 32

  /** What is left of the bytes that arrive between two readings of everything. */
  function Kept(arrivals: seq<Bytes>): (chunks: seq<Bytes>)
    ensures |chunks| == |arrivals|
  {
    seq(|arrivals|, i requires 0 <= i < |arrivals| => LastN(arrivals[i], RX_BUFFER_SIZE - 1))
  }

  lemma KeptNext(arrivals: seq<Bytes>, i: nat)
    requires i < |arrivals|
    ensures var chunks := Kept(arrivals[..i + 1]);
      chunks[i] == LastN(arrivals[i], RX_BUFFER_SIZE - 1) && chunks[..i] == Kept(arrivals[..i])
  {
  }

  lemma NothingBefore(bytes: Bytes)
    ensures LastN([] + bytes, RX_BUFFER_SIZE - 1) == LastN(bytes, RX_BUFFER_SIZE - 1)
  {
    assert [] + bytes == bytes;
  }

  lemma OneMore(before: Bytes, bytes: Bytes, i: nat)
    requires i < |bytes|
    ensures LastN(LastN(before + bytes[..i], RX_BUFFER_SIZE - 1) + [bytes[i]], RX_BUFFER_SIZE - 1)
         == LastN(before + bytes[..i + 1], RX_BUFFER_SIZE - 1)
  {
    hide LastN;
    LastNAppend(before + bytes[..i], [bytes[i]], RX_BUFFER_SIZE - 1);
    assert before + bytes[..i] + [bytes[i]] == before + bytes[..i + 1];
  }

  lemma MoveOne(before: Bytes, pending: Bytes, i: nat)
    requires i < |pending|
    ensures pending[i..] != [] && pending[i..][1..] == pending[i + 1..]
    ensures before + pending[..i] + [pending[i..][0]] == before + pending[..i + 1]
  {
  }

  class Serial {
    const rxBuffer: CircularBuffer

    ghost predicate Valid()
      reads rxBuffer
    {
      rxBuffer.Valid() && rxBuffer.Capacity() == RX_BUFFER_SIZE - 1
    }

    /** Bytes received and not yet read. */
    ghost function Pending(): Bytes
      requires Valid()
      reads rxBuffer, rxBuffer.buffer
    {
      rxBuffer.Contents()
    }

    constructor ()
      ensures Valid() && fresh(rxBuffer) && fresh(rxBuffer.buffer) && Pending() == []
    {
      rxBuffer := new CircularBuffer(RX_BUFFER_SIZE);
    }

    /** The interrupt handler, for one received byte. */
    method RxInterrupt(c: uint8)
      requires Valid()
      modifies rxBuffer, rxBuffer.buffer
      ensures Valid() && Pending() == LastN(old(Pending()) + [c], RX_BUFFER_SIZE - 1)
      ensures Pending() == if |old(Pending())| < 31 then old(Pending()) + [c] else old(Pending())[1..] + [c]
    {
      var _ := rxBuffer.Push([c]);
    }

    /** The interrupt handler for several bytes, one after the other. */
    method Receive(bytes: Bytes)
      requires Valid()
      modifies rxBuffer, rxBuffer.buffer
      ensures Valid() && Pending() == LastN(old(Pending()) + bytes, RX_BUFFER_SIZE - 1)
      ensures var all := old(Pending()) + bytes; Pending() == if |all| <= 31 then all else all[|all| - 31..]
    {
      ghost var before := Pending();
      RingSize(rxBuffer.buffer[..], rxBuffer.start, rxBuffer.end);
      assert before + bytes[..0] == before;
      assert LastN(before, RX_BUFFER_SIZE - 1) == before;
      hide Ring, LastN;
      for i := 0 to |bytes|
        invariant Valid() && Pending() == LastN(before + bytes[..i], RX_BUFFER_SIZE - 1)
      {
        RxInterrupt(bytes[i]);
        OneMore(before, bytes, i);
      }
      assert bytes[..|bytes|] == bytes;
    }

    method DataAvailable() returns (n: nat)
      requires Valid()
      ensures n == |Pending()|
    {
      n := rxBuffer.Size();
    }

    /** Reads several bytes with interrupts masked. */
    method ReadInto(data: array<uint8>, maxBytes: uint32) returns (n: nat)
      requires Valid() && data != rxBuffer.buffer && Limited(maxBytes, |Pending()|) <= data.Length
      modifies rxBuffer, data
      ensures Valid() && (maxBytes == 0 ==> n == |old(Pending())|)
      ensures 0 < maxBytes ==> n == if maxBytes < |old(Pending())| then maxBytes else |old(Pending())|
      ensures data[..n] == old(Pending())[..n] && Pending() == old(Pending())[n..]
    {
      n := rxBuffer.Pull(data, maxBytes);
    }

    method ReadByte() returns (c: uint8)
      requires Valid()
      modifies rxBuffer
      ensures Valid() && c == if old(Pending()) == [] then 0 else old(Pending())[0]
      ensures Pending() == if old(Pending()) == [] then [] else old(Pending())[1..]
    {
      var n := rxBuffer.Size();
      if n == 0 {
        return 0;
      }
      c := rxBuffer.PullByte();
    }

    /** Moves what has been received, up to maxBytes, to the end of an array. */
    method ReadAppend(a: ByteArray, maxBytes: uint16 := 0xFFFF) returns (n: nat)
      requires Valid() && a.Valid() && a.memory != rxBuffer.buffer
      modifies rxBuffer, a, a.memory
      ensures Valid() && a.Valid() && (fresh(a.memory) || a.memory == old(a.memory))
      ensures n == if maxBytes < |old(Pending())| then maxBytes else |old(Pending())|
      ensures a.Contents() == old(a.Contents()) + old(Pending())[..n] && Pending() == old(Pending())[n..]
    {
      hide Ring;
      ghost var pending, before := Pending(), a.Contents();
      n := DataAvailable();
      if maxBytes < n {
        n := maxBytes;
      }
      a.Reserve(a.usedSize + n);
      assert pending[0..] == pending && before + pending[..0] == before;
      for i := 0 to n
        invariant Valid() && a.Valid() && (fresh(a.memory) || a.memory == old(a.memory))
        invariant a.Contents() == before + pending[..i] && Pending() == pending[i..]
      {
        MoveOne(before, pending, i);
        var c := ReadByte();
        var _ := a.Append(c);
      }
    }
  }
}
