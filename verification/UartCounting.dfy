/** The count at the beginning of readAppend, when it can go wrong, and that otherwise readAppend is
    right. */
module UartCounting {
  import opened MachineInts
  import opened ByteQueue
  import opened Rings
  import opened UartInterleaving

  /** The indices before the call that allow a miscount: the end index can still reach the end of the
      memory and wrap around, and the ring does not fill the maximum before it does. */
  predicate AtRisk(size: nat, start: nat, end: nat, max: nat) {
    1 <= start <= end && size - start < max
  }

  /** As long as readAppend counts, the start index stays and the end index does not move back. */
  predicate Counting(s: State, size: nat, start: nat, end: nat) {
    && InRange(s) && |s.mem| == size && s.start == start && end < size
    && match s.pc
       case CountFirst => Ahead(s, end) <= Ahead(s, s.end)
       case CountSecond(e) => Between(s, e) && Ahead(s, end) <= Ahead(s, e)
       case _ => false
  }

  lemma CountingStep(s: State, a: Action, t: State, r: Reader, size: nat, start: nat, end: nat)
    requires r.ReadAppend? && Transition(s, a, t, r)
    requires s.pc.CountFirst? || s.pc.CountSecond? ==> Counting(s, size, start, end)
    ensures t.pc.CountFirst? || t.pc.CountSecond? ==> Counting(t, size, start, end)
  {
    if a.Interrupt? && (s.pc.CountFirst? || s.pc.CountSecond?) {
      RingSize(s.mem, s.start, s.end);
    }
  }

  lemma {:induction false} StillCounting(states: seq<State>, actions: seq<Action>, r: Reader,
                                         size: nat, start: nat, end: nat)
    requires r.ReadAppend? && IsRun(states, actions, r) && Counting(states[0], size, start, end)
    ensures var t := states[|actions|]; t.pc.CountFirst? || t.pc.CountSecond? ==> Counting(t, size, start, end)
  {
    hide Transition, Counting;
    var n := |actions|;
    if n > 0 {
      RunPrefix(states, actions, r);
      StillCounting(states[..n], actions[..n - 1], r, size, start, end);
      CountingStep(states[n - 1], actions[n - 1], states[n], r, size, start, end);
    }
  }

  lemma MiscountNeedsRisk(mem: Bytes, start: nat, end: nat, max: nat, states: seq<State>, actions: seq<Action>)
    requires 0 < |mem| < 0x1_0000_0000 && start < |mem| && end < |mem|
    requires IsRun(states, actions, ReadAppend(max)) && states[0] == Initial(mem, start, end, ReadAppend(max))
    ensures Miscounts(states[|actions|], ReadAppend(max)) ==> AtRisk(|mem|, start, end, max)
  {
    var t := states[|actions|];
    StillCounting(states, actions, ReadAppend(max), |mem|, start, end);
    if Miscounts(t, ReadAppend(max)) {
      RingSize(t.mem, t.start, t.end);
    }
  }

  /** If the ring is not at risk, no run miscounts. */
  lemma NoRiskNoMiscount(mem: Bytes, start: nat, end: nat, max: nat, states: seq<State>, actions: seq<Action>)
    requires 0 < |mem| < 0x1_0000_0000 && start < |mem| && end < |mem| && !AtRisk(|mem|, start, end, max)
    requires IsRun(states, actions, ReadAppend(max)) && states[0] == Initial(mem, start, end, ReadAppend(max))
    ensures NoMiscount(states, ReadAppend(max))
  {
    var r := ReadAppend(max);
    forall i | 0 <= i < |states|
      ensures !Miscounts(states[i], r)
    {
      hide Transition, Miscounts, Initial;
      assert IsRun(states[..i + 1], actions[..i], r);
      MiscountNeedsRisk(mem, start, end, max, states[..i + 1], actions[..i]);
    }
  }

  /** A finished result of readAppend: a prefix of the bytes received, at least as many of them as
      were there when it was called, up to the maximum, and the rest is still in the ring. */
  predicate AppendRight(t: State, received: Bytes, available: nat, max: nat) {
    && InRange(t) && |t.out| <= |received|
    && t.out == received[..|t.out|] && Resident(t) == received[|t.out|..]
    && AtMost(available, max) <= |t.out| <= max
  }

  /** In every interleaving without overrun, of a call that is not at risk or at least does not
      miscount, no byte is lost or made up, and the finished result is right. */
  lemma ReadAppendCorrect(mem: Bytes, start: nat, end: nat, states: seq<State>, actions: seq<Action>, max: nat)
    requires 0 < |mem| < 0x1_0000_0000 && start < |mem| && end < |mem|
    requires IsRun(states, actions, ReadAppend(max))
    requires states[0] == Initial(mem, start, end, ReadAppend(max))
    requires !AtRisk(|mem|, start, end, max) || NoMiscount(states, ReadAppend(max))
    ensures var t, received := states[|actions|], Ring(mem, start, end) + Pushed(actions);
      && InRange(t)
      && t.out + InHand(t) + Resident(t) == received
      && (t.pc.Done? ==> AppendRight(t, received, |Ring(mem, start, end)|, max))
  {
    assert |states| == |actions| + 1;
    if !AtRisk(|mem|, start, end, max) {
      NoRiskNoMiscount(mem, start, end, max, states, actions);
    }
    hide IsRun, Inv, Initial, Ring, Pushed;
    InitialInv(mem, start, end, ReadAppend(max));
    RunKeepsInv(states, actions, ReadAppend(max));
    GoalFloor(states, actions, max);
    AppendFinished(states[|actions|], max);
  }

  lemma AppendFinished(t: State, max: nat)
    requires Inv(t, ReadAppend(max))
    ensures InRange(t) && t.out + InHand(t) + Resident(t) == t.stream
    ensures t.pc.Done? ==>
      |t.out| == t.goal <= max && t.out == t.stream[..|t.out|] && Resident(t) == t.stream[|t.out|..]
  {
    hide Ring;
    NothingInHand(t.out, Resident(t));
  }

  lemma {:induction false} GoalFloor(states: seq<State>, actions: seq<Action>, max: nat)
    requires IsRun(states, actions, ReadAppend(max)) && Inv(states[0], ReadAppend(max)) && states[0].pc.CountFirst?
    requires NoMiscount(states, ReadAppend(max))
    ensures var t := states[|actions|];
      t.pc.CountFirst? || t.pc.CountSecond? || AtMost(|states[0].stream|, max) <= t.goal
  {
    var n, r := |actions|, ReadAppend(max);
    if n > 0 {
      RunPrefix(states, actions, r);
      GoalFloor(states[..n], actions[..n - 1], max);
      RunKeepsInv(states[..n], actions[..n - 1], r);
      FloorStep(states[n - 1], actions[n - 1], states[n], r);
    }
  }

  lemma FloorStep(s: State, a: Action, t: State, r: Reader)
    requires Inv(s, r) && Transition(s, a, t, r) && !Miscounts(s, r) && r.ReadAppend?
    ensures s.pc.CountSecond? && a.Main? ==> t.goal == AtMost(|s.stream|, r.max)
    ensures !(s.pc.CountSecond? && a.Main?) ==> t.goal == s.goal
    ensures a.Interrupt? || s.pc.CountFirst? ==> t.pc.CountFirst? || t.pc.CountSecond? || t.pc == s.pc
  {
    if s.pc.CountSecond? && a.Main? {
      CountIff(s, r);
    }
  }
}
