/** The fixed-size ring buffer of the UART receiver. */
module CircularBuffers {
  import opened MachineInts
  import opened ByteQueue
  import opened Rings

  lemma DropOne(queue: Bytes, r: nat)
    requires r < |queue|
    ensures queue[r..][0] == queue[r] && queue[r..][1..] == queue[r + 1..]
  {
  }

  class CircularBuffer {
    const bufferSize: uint32
    const buffer: array<uint8>
    var start: uint32
    var end: uint32

    ghost predicate Valid()
      reads this
    {
      buffer.Length == bufferSize && start < bufferSize && end < bufferSize
    }

    ghost function Contents(): Bytes
      requires Valid()
      reads this, buffer
    {
      Ring(buffer[..], start, end)
    }

    ghost function Capacity(): nat
      requires Valid()
      reads this
    {
      bufferSize - 1
    }

    constructor (size: uint32)
      requires 0 < size
      ensures Valid() && fresh(buffer) && Contents() == [] && Capacity() == size - 1
    {
      bufferSize := size;
      buffer := new uint8[size];
      start, end := 0, 0;
    }

    /** The sum in the second branch may exceed 32 bits, and then wraps around twice. */
    method Size() returns (n: uint32)
      requires Valid()
      ensures n == |Contents()|
    {
      if end >= start {
        return end - start;
      }
      return ToUInt32(ToUInt32(bufferSize + end) - start);
    }

    method Clear()
      requires Valid()
      modifies `start
      ensures Valid() && Contents() == []
    {
      start := end;
    }

    method IncEnd()
      requires Valid()
      modifies `end
      ensures end == Next(old(end), bufferSize)
    {
      end := ToUInt32(end + 1);
      if end == bufferSize {
        end := 0;
      }
    }

    method IncStart()
      requires Valid()
      modifies `start
      ensures start == Next(old(start), bufferSize)
    {
      start := ToUInt32(start + 1);
      if start == bufferSize {
        start := 0;
      }
    }

    method Push(data: Bytes) returns (overrun: bool)
      requires Valid()
      modifies this, buffer
      ensures Valid() && Contents() == LastN(old(Contents()) + data, Capacity())
      ensures var all := old(Contents()) + data;
        Contents() == if |all| <= Capacity() then all else all[|all| - Capacity()..]
      ensures overrun <==> |old(Contents())| + |data| > Capacity()
    {
      overrun := false;
      RingSize(buffer[..], start, end);
      NothingPushed(Contents(), data, Capacity());
      LastBytes(Contents() + data, Capacity());
      hide Ring, LastN;
      for i := 0 to |data|
        invariant Valid() && Contents() == LastN(old(Contents()) + data[..i], Capacity())
        invariant overrun <==> |old(Contents())| + i > Capacity()
      {
        ghost var was := Contents();
        var full := PushByte(data[i]);
        PushOne(old(Contents()), data, i, Capacity(), was, Contents());
        overrun := overrun || full;
      }
      assert data[..|data|] == data;
    }

    /** One iteration of the loop of push. */
    method PushByte(c: uint8) returns (full: bool)
      requires Valid()
      modifies this, buffer
      ensures Valid() && (full <==> |old(Contents())| == Capacity())
      ensures Contents() == if full then (old(Contents()) + [c])[1..] else old(Contents()) + [c]
      ensures buffer[..] == old(buffer[..])[old(end) := c] && end == Next(old(end), bufferSize)
      ensures start == if end == old(start) then Next(old(start), bufferSize) else old(start)
    {
      ghost var mem := buffer[..];
      RingWrite(mem, start, end, c);
      buffer[end] := c;
      assert buffer[..] == mem[end := c];
      IncEnd();
      full := false;
      if end == start {
        IncStart();
        full := true;
      }
    }

    /** Reads at most maxData bytes into data, or all of them if maxData is zero. */
    method Pull(data: array<uint8>, maxData: uint32) returns (r: uint32)
      requires Valid() && data != buffer && Limited(maxData, |Contents()|) <= data.Length
      modifies `start, data
      ensures Valid() && (maxData == 0 ==> r == |old(Contents())|)
      ensures 0 < maxData ==> r == if maxData < |old(Contents())| then maxData else |old(Contents())|
      ensures data[..r] == old(Contents())[..r] && data[r..] == old(data[..])[r..]
      ensures Contents() == old(Contents())[r..]
    {
      hide Ring;
      ghost var queue, before := Contents(), data[..];
      assert queue[0..] == queue;
      EmptyIff();
      r := 0;
      while start != end
        invariant Valid() && r <= |queue| && r <= data.Length && (0 < maxData ==> r < maxData)
        invariant forall k | 0 <= k < r :: data[k] == queue[k]
        invariant forall k | r <= k < data.Length :: data[k] == before[k]
        invariant Contents() == queue[r..] && (start == end <==> Contents() == [])
        decreases |queue| - r
      {
        data[r] := Take();
        EmptyIff();
        DropOne(queue, r);
        r := r + 1;
        if r == maxData {
          break;
        }
      }
      assert data[..r] == queue[..r] && data[r..] == before[r..];
    }

    /** The loop of pull reads the byte at the start index and moves the index on. */
    method Take() returns (c: uint8)
      requires Valid() && start != end
      modifies `start
      ensures Valid() && old(Contents()) != [] && c == old(Contents())[0] && Contents() == old(Contents())[1..]
    {
      RingRead(buffer[..], start, end);
      c := buffer[start];
      IncStart();
    }

    lemma EmptyIff()
      requires Valid()
      ensures (start == end <==> Contents() == []) && |Contents()| < 0x1_0000_0000
    {
      RingSize(buffer[..], start, end);
    }

    /** Reads one byte, or 0 when there is none. */
    method PullByte() returns (c: uint8)
      requires Valid()
      modifies `start
      ensures Valid() && c == if old(Contents()) == [] then 0 else old(Contents())[0]
      ensures Contents() == if old(Contents()) == [] then [] else old(Contents())[1..]
    {
      var cell := new uint8[1](_ => 0);
      var n := Pull(cell, 1);
      c := cell[0];
    }
  }

  /** One operation on a real buffer, and the bytes it delivers. */
  method Perform(ring: CircularBuffer, op: Op, ghost l: Ledger) returns (delivered: Bytes)
    requires ring.Valid() && ring.Contents() == l.queue
    requires op.Pull? ==> op.max < 0x1_0000_0000
    modifies ring, ring.buffer
    ensures ring.Valid() && ring.Contents() == Apply(ring.Capacity(), l, op).queue
    ensures OfFate(Apply(ring.Capacity(), l, op).gone, Delivered) == OfFate(l.gone, Delivered) + delivered
  {
    delivered := [];
    match op {
      case Push(data) =>
        ghost var all := l.queue + data;
        var _ := ring.Push(data);
        OfFateTagged(l.gone, all[..Excess(|all|, ring.Capacity())], Dropped, Delivered);
      case Pull(max) =>
        var n := ring.Size();
        var cells := new uint8[Limited(max, n)];
        var r := ring.Pull(cells, max);
        delivered := cells[..r];
        OfFateTagged(l.gone, l.queue[..r], Delivered, Delivered);
      case Clear =>
        ring.Clear();
        OfFateTagged(l.gone, l.queue, Cleared, Delivered);
    }
  }

  /** Any history of operations on a real buffer leaves in it what the bounded queue holds, and has
      delivered the bytes the queue's ledger says were delivered. */
  method Replay(size: uint32, ops: seq<Op>) returns (ring: CircularBuffer, delivered: Bytes)
    requires 0 < size && forall i | 0 <= i < |ops| && ops[i].Pull? :: ops[i].max < 0x1_0000_0000
    ensures ring.Valid() && ring.Contents() == Run(size - 1, ops).queue
    ensures delivered == OfFate(Run(size - 1, ops).gone, Delivered)
  {
    delivered := [];
    ring := new CircularBuffer(size);
    for i := 0 to |ops|
      invariant ring.Valid() && fresh(ring) && fresh(ring.buffer) && ring.Capacity() == size - 1
      invariant ring.Contents() == Run(size - 1, ops[..i]).queue
      invariant delivered == OfFate(Run(size - 1, ops[..i]).gone, Delivered)
    {
      assert ops[..i + 1][..i] == ops[..i];
      var out := Perform(ring, ops[i], Run(size - 1, ops[..i]));
      delivered := delivered + out;
    }
    assert ops[..|ops|] == ops;
  }
}
