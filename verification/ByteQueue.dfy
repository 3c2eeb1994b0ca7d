/** What a ring buffer means: a bounded first-in-first-out queue that drops its oldest bytes, and
    the fate of every byte over a history of operations. */
module ByteQueue {
  import opened MachineInts

  type Bytes = seq<uint8>

  /** The last n elements, or all of them. */
  function LastN<T>(s: seq<T>, n: nat): seq<T> {
    if |s| <= n then s else s[|s| - n..]
  }

  lemma LastBytes(s: Bytes, n: nat)
    ensures LastN(s, n) == if |s| <= n then s else s[|s| - n..]
  {
  }

  lemma LastNAppend<T>(s: seq<T>, t: seq<T>, n: nat)
    ensures LastN(LastN(s, n) + t, n) == LastN(s + t, n)
  {
    if |s| > n {
      var d := |s| - n;
      assert (s + t)[d..] == s[d..] + t;
      if |t| <= n {
        assert (s[d..] + t)[|t|..] == (s + t)[d + |t|..];
      }
    }
  }

  lemma NothingPushed(q: Bytes, data: Bytes, n: nat)
    requires |q| <= n
    ensures LastN(q + data[..0], n) == q
  {
  }

  /** Appending one byte to a queue of capacity n, when it is not full and when it is. */
  lemma PushOne(q: Bytes, data: Bytes, i: nat, n: nat, was: Bytes, now: Bytes)
    requires i < |data| && was == LastN(q + data[..i], n)
    requires now == if |was| == n then (was + [data[i]])[1..] else was + [data[i]]
    ensures now == LastN(q + data[..i + 1], n)
    ensures |was| == n <==> |q| + i >= n
  {
    LastNAppend(q + data[..i], [data[i]], n);
    assert q + data[..i] + [data[i]] == q + data[..i + 1];
  }

  datatype Op = Push(data: Bytes) | Pull(max: nat) | Clear

  datatype Fate = Delivered | Dropped | Cleared

  /** Bytes that have left the queue, in the order they left and with the reason, and those in it. */
  datatype Ledger = Ledger(gone: seq<(uint8, Fate)>, queue: Bytes)

  function Tag(s: Bytes, f: Fate): (t: seq<(uint8, Fate)>) {
    seq(|s|, i requires 0 <= i < |s| => (s[i], f))
  }

  function Untag(t: seq<(uint8, Fate)>): (s: Bytes)
    ensures |s| == |t|
  {
    seq(|t|, i requires 0 <= i < |t| => t[i].0)
  }

  /** How many of n bytes do not fit. */
  function Excess(n: nat, cap: nat): nat {
    if n <= cap then 0 else n - cap
  }

  /** How many of n bytes are read with a maximum of max, where zero is no limit. */
  function Limited(max: nat, n: nat): nat {
    if 0 < max < n then max else n
  }

  /** One operation on a queue that holds at most cap bytes. */
  function Apply(cap: nat, l: Ledger, op: Op): Ledger {
    match op
    case Push(data) =>
      var all := l.queue + data;
      var excess := Excess(|all|, cap);
      Ledger(l.gone + Tag(all[..excess], Dropped), all[excess..])
    case Pull(max) =>
      var n := Limited(max, |l.queue|);
      Ledger(l.gone + Tag(l.queue[..n], Delivered), l.queue[n..])
    case Clear =>
      Ledger(l.gone + Tag(l.queue, Cleared), [])
  }

  /** What each operation does, said again without the functions above. */
  lemma Effects(cap: nat, l: Ledger, data: Bytes, max: nat)
    ensures var l', all := Apply(cap, l, Push(data)), l.queue + data;
      && (|all| <= cap ==> l' == Ledger(l.gone, all))
      && (cap < |all| ==>
            l' == Ledger(l.gone + seq(|all| - cap, i requires 0 <= i < |all| - cap => (all[i], Dropped)),
                         all[|all| - cap..]))
    ensures var l', n := Apply(cap, l, Pull(max)), |l.queue|;
      && (max == 0 || n <= max ==>
            l' == Ledger(l.gone + seq(n, i requires 0 <= i < n => (l.queue[i], Delivered)), []))
      && (0 < max < n ==>
            l' == Ledger(l.gone + seq(max, i requires 0 <= i < max => (l.queue[i], Delivered)), l.queue[max..]))
    ensures Apply(cap, l, Clear)
      == Ledger(l.gone + seq(|l.queue|, i requires 0 <= i < |l.queue| => (l.queue[i], Cleared)), [])
  {
    var all := l.queue + data;
    assert Tag(all[..0], Dropped) == [] && l.gone + [] == l.gone && all[0..] == all;
    if cap < |all| {
      var n := |all| - cap;
      assert Tag(all[..n], Dropped) == seq(n, i requires 0 <= i < n => (all[i], Dropped));
    }
    assert l.queue[..|l.queue|] == l.queue && l.queue[|l.queue|..] == [];
    assert Tag(l.queue, Delivered) == seq(|l.queue|, i requires 0 <= i < |l.queue| => (l.queue[i], Delivered));
    assert Tag(l.queue, Cleared) == seq(|l.queue|, i requires 0 <= i < |l.queue| => (l.queue[i], Cleared));
    if 0 < max < |l.queue| {
      assert Tag(l.queue[..max], Delivered) == seq(max, i requires 0 <= i < max => (l.queue[i], Delivered));
    }
  }

  function Run(cap: nat, ops: seq<Op>): Ledger
    decreases |ops|
  {
    if ops == [] then Ledger([], []) else Apply(cap, Run(cap, ops[..|ops| - 1]), ops[|ops| - 1])
  }

  function Received(ops: seq<Op>): Bytes {
    if ops == [] then [] else Received(ops[..|ops| - 1]) + Input(ops[|ops| - 1])
  }

  /** The bytes that met the given fate. */
  function OfFate(t: seq<(uint8, Fate)>, f: Fate): Bytes {
    if t == [] then [] else OfFate(t[..|t| - 1], f) + if t[|t| - 1].1 == f then [t[|t| - 1].0] else []
  }

  lemma {:induction false} OfFateTagged(t: seq<(uint8, Fate)>, s: Bytes, f: Fate, g: Fate)
    ensures OfFate(t + Tag(s, f), g) == OfFate(t, g) + if f == g then s else []
  {
    if s == [] {
      assert t + Tag(s, f) == t;
    } else {
      var u := t + Tag(s, f);
      assert u[..|u| - 1] == t + Tag(s[..|s| - 1], f);
      OfFateTagged(t, s[..|s| - 1], f, g);
    }
  }

  function CountFate(t: seq<(uint8, Fate)>, f: Fate): nat {
    if t == [] then 0 else CountFate(t[..|t| - 1], f) + if t[|t| - 1].1 == f then 1 else 0
  }

  function Input(op: Op): Bytes {
    match op case Push(data) => data case _ => []
  }

  lemma ApplyKeepsOrder(cap: nat, l: Ledger, op: Op)
    requires |l.queue| <= cap
    ensures var l' := Apply(cap, l, op);
      Untag(l'.gone) + l'.queue == Untag(l.gone) + l.queue + Input(op) && |l'.queue| <= cap
  {
    match op {
      case Push(data) =>
        var all := l.queue + data;
        Moved(l.gone, all, Excess(|all|, cap), Dropped);
        assert Untag(l.gone) + all == Untag(l.gone) + l.queue + data;
      case Pull(max) =>
        Moved(l.gone, l.queue, Limited(max, |l.queue|), Delivered);
      case Clear =>
        assert l.queue[..|l.queue|] == l.queue;
        Moved(l.gone, l.queue, |l.queue|, Cleared);
    }
  }

  lemma Moved(t: seq<(uint8, Fate)>, s: Bytes, n: nat, f: Fate)
    requires n <= |s|
    ensures Untag(t + Tag(s[..n], f)) + s[n..] == Untag(t) + s
  {
    UntagAppend(t, s[..n], f);
  }

  /** Over every history the bytes received are, in order, those that have left followed by those
      still queued, and the queue respects its capacity. */
  lemma {:induction false} NothingLost(cap: nat, ops: seq<Op>)
    ensures Untag(Run(cap, ops).gone) + Run(cap, ops).queue == Received(ops)
    ensures |Run(cap, ops).queue| <= cap
  {
    if ops != [] {
      NothingLost(cap, ops[..|ops| - 1]);
      ApplyKeepsOrder(cap, Run(cap, ops[..|ops| - 1]), ops[|ops| - 1]);
    }
  }

  lemma UntagAppend(t: seq<(uint8, Fate)>, s: Bytes, f: Fate)
    ensures Untag(t + Tag(s, f)) == Untag(t) + s
  {
  }

  lemma {:induction false} FatesAddUp(t: seq<(uint8, Fate)>)
    ensures |t| == CountFate(t, Delivered) + CountFate(t, Dropped) + CountFate(t, Cleared)
  {
    if t != [] {
      FatesAddUp(t[..|t| - 1]);
    }
  }

  /** The same as a balance of counts. */
  lemma Conservation(cap: nat, ops: seq<Op>)
    ensures var l := Run(cap, ops);
      |Received(ops)| == CountFate(l.gone, Delivered) + CountFate(l.gone, Dropped) + CountFate(l.gone, Cleared)
                         + |l.queue|
  {
    NothingLost(cap, ops);
    FatesAddUp(Run(cap, ops).gone);
  }
}
