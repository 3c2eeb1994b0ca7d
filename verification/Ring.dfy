/** The contents of a ring in memory, and what writing at its end and reading at its start do. */
module Rings {
  import opened MachineInts
  import opened ByteQueue

  /** The bytes from start up to end, going around. */
  function Ring(mem: Bytes, start: nat, end: nat): Bytes
    requires start < |mem| && end < |mem|
  {
    if start <= end then mem[start..end] else mem[start..] + mem[..end]
  }

  function Next(i: nat, size: nat): nat {
    if i + 1 == size then 0 else i + 1
  }

  lemma RingSize(mem: Bytes, start: nat, end: nat)
    requires start < |mem| && end < |mem|
    ensures |Ring(mem, start, end)| == if start <= end then end - start else |mem| + end - start
  {
  }

  /** A write at the end either grows the ring or, when there is no free byte but the one that
      tells a full ring from an empty one, meets the start. */
  lemma RingWrite(mem: Bytes, start: nat, end: nat, c: uint8)
    requires start < |mem| && end < |mem|
    ensures Next(end, |mem|) == start <==> |Ring(mem, start, end)| == |mem| - 1
    ensures Next(end, |mem|) != start ==>
      Ring(mem[end := c], start, Next(end, |mem|)) == Ring(mem, start, end) + [c]
    ensures Next(end, |mem|) == start ==>
      Ring(mem[end := c], Next(start, |mem|), Next(end, |mem|)) == (Ring(mem, start, end) + [c])[1..]
  {
    var next := Next(end, |mem|);
    if next == start {
      if start + 1 < |mem| {
        assert mem[start..] == [mem[start]] + mem[start + 1..];
        FullRingWrite(mem, start, end, c);
      }
    } else if start <= end {
      assert next == 0 ==> mem[end := c][start..] == mem[start..end] + [c];
    } else {
      assert mem[end := c][..next] == mem[..end] + [c];
    }
  }

  lemma FullRingWrite(mem: Bytes, start: nat, end: nat, c: uint8)
    requires start + 1 < |mem| && end < |mem| && Next(end, |mem|) == start
    ensures Ring(mem[end := c], start + 1, start) == (Ring(mem, start, end) + [c])[1..]
  {
    var m := mem[end := c];
    if start == 0 {
      assert m[1..] == mem[1..end] + [c];
    } else {
      assert m[start + 1..] == mem[start..][1..];
      assert m[..start] == mem[..end] + [c];
    }
  }

  lemma RingRead(mem: Bytes, start: nat, end: nat)
    requires start < |mem| && end < |mem| && start != end
    ensures Ring(mem, start, end) != [] && Ring(mem, start, end)[0] == mem[start]
    ensures Ring(mem, Next(start, |mem|), end) == Ring(mem, start, end)[1..]
  {
  }
}
