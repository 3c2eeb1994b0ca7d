/** Left alone, the calls return, and with the right result. */
module UartReturns {
  import opened MachineInts
  import opened ByteQueue
  import opened Rings
  import opened UartCounting
  import opened UartInterleaving

  /** n uninterrupted steps of the main program. */
  function MainRun(s: State, r: Reader, n: nat): State
    decreases n
  {
    if n == 0 then s else MainRun(Step(s, r), r, n - 1)
  }

  lemma {:induction false} MainRunAdd(s: State, r: Reader, m: nat, n: nat)
    ensures MainRun(s, r, m + n) == MainRun(MainRun(s, r, m), r, n)
    decreases m
  {
    hide Step;
    if m > 0 {
      MainRunAdd(Step(s, r), r, m - 1, n);
    }
  }

  /** Main steps appended to a run. */
  lemma {:induction false} RunOn(states: seq<State>, actions: seq<Action>, r: Reader, n: nat)
      returns (states': seq<State>, actions': seq<Action>)
    requires IsRun(states, actions, r)
    ensures IsRun(states', actions', r) && states'[0] == states[0]
    ensures states'[|actions'|] == MainRun(states[|actions|], r, n) && Pushed(actions') == Pushed(actions)
    decreases n
  {
    hide Step;
    states', actions' := states, actions;
    if n > 0 {
      var s := states[|actions|];
      assert (actions + [Main])[..|actions|] == actions;
      states', actions' := RunOn(states + [Step(s, r)], actions + [Main], r, n - 1);
    }
  }

  /** readUntil does not wait for bytes that have not arrived. */
  predicate HasEnough(s: State, r: Reader) {
    match r
    case ReadUntil(endc, max) => max <= |s.stream| || endc in s.stream
    case _ => true
  }

  /** Main steps that may be left: thirteen at most for each byte that is still to come. */
  function StepsLeft(s: State): nat
    requires InRange(s)
  {
    13 * (|InHand(s)| + |Resident(s)|) + StepsToAppend(s.pc)
  }

  lemma MoreToCome(s: State, r: Reader)
    requires Inv(s, r) && r.ReadUntil? && !s.pc.Done? && HasEnough(s, r) && InHand(s) == [] && |s.out| < s.goal
    ensures Resident(s) != []
  {
    hide Ring;
    NothingInHand(s.out, Resident(s));
    assert s.out + [] == s.out;
  }

  /** The goal will not change any more. */
  predicate Settled(s: State) {
    !s.pc.CountFirst? && !s.pc.CountSecond?
  }

  lemma StepsCountDown(s: State, r: Reader)
    requires Inv(s, r) && !Miscounts(s, r) && !s.pc.Done? && HasEnough(s, r)
    ensures var t := Step(s, r);
      && Inv(t, r) && !Miscounts(t, r) && t.stream == s.stream && (t.pc.Done? || StepsLeft(t) < StepsLeft(s))
      && (r.Drain? && t.pc.Done? ==> t.out == s.stream)
      && (Settled(s) ==> Settled(t) && t.goal == s.goal)
  {
    StepKeepsInv(s, r);
    if s.pc.SizeSecond? || s.pc.CheckSecond? {
      TornSize(s, s.pc.e);
    }
    if r.ReadUntil? && s.pc.SizeSecond? {
      MoreToCome(s, r);
    }
    RingSize(s.mem, LogicalStart(s), s.end);
    RingSize(Step(s, r).mem, LogicalStart(Step(s, r)), Step(s, r).end);
    hide SizeValue, Ring;
  }

  /** Every call returns if it is left alone and, in the case of readUntil, enough has arrived. */
  lemma {:induction false} Returns(s: State, r: Reader) returns (n: nat)
    requires Inv(s, r) && !Miscounts(s, r) && !s.pc.Done? && HasEnough(s, r)
    ensures var t := MainRun(s, r, n);
      && Inv(t, r) && t.pc.Done? && t.stream == s.stream
      && (r.Drain? ==> t.out == s.stream) && (Settled(s) ==> t.goal == s.goal)
    decreases StepsLeft(s)
  {
    hide Step, RingInv, GoalInv, StepsLeft, Miscounts;
    StepsCountDown(s, r);
    var t := Step(s, r);
    if t.pc.Done? {
      n := 1;
      assert MainRun(s, r, 1) == MainRun(t, r, 0);
    } else {
      n := Returns(t, r);
      n := n + 1;
    }
  }

  /** The loop of the Sigfox driver returns with everything that has arrived, */
  lemma DrainReturns(s: State) returns (n: nat)
    requires Inv(s, Drain) && !s.pc.Done?
    ensures MainRun(s, Drain, n).pc.Done?
    ensures MainRun(s, Drain, n).out == s.out + Resident(s)
  {
    OnlyAppendCounts(s, Drain);
    n := Returns(s, Drain);
    NothingInHand(s.out, Resident(s));
  }

  /** readUntil with the stream up to the first endc or its first max bytes, */
  lemma UntilReturns(s: State, endc: uint8, max: nat) returns (n: nat)
    requires Inv(s, ReadUntil(endc, max)) && !s.pc.Done?
    requires endc in InHand(s) + Resident(s) || max <= |s.out| + |InHand(s)| + |Resident(s)|
    ensures var t := MainRun(s, ReadUntil(endc, max), n);
      t.pc.Done? && t.out == Until(s.out + InHand(s) + Resident(s), endc, max)
  {
    OnlyAppendCounts(s, ReadUntil(endc, max));
    n := Returns(s, ReadUntil(endc, max));
    UntilFinished(MainRun(s, ReadUntil(endc, max), n), endc, max);
  }

  /** and readAppend, from its call on, with what was there, up to its maximum. */
  lemma AppendReturns(mem: Bytes, start: nat, end: nat, max: nat) returns (n: nat)
    requires 0 < |mem| < 0x1_0000_0000 && start < |mem| && end < |mem|
    ensures var ring, r := Ring(mem, start, end), ReadAppend(max);
      var t := MainRun(Initial(mem, start, end, r), r, n);
      t.pc.Done? && t.out == if |ring| < max then ring else ring[..max]
  {
    var r, ring := ReadAppend(max), Ring(mem, start, end);
    var s := Initial(mem, start, end, r);
    InitialInv(mem, start, end, r);
    var s' := Step(s, r);
    var s'' := Step(s', r);
    StepsCountDown(s, r);
    StepsCountDown(s', r);
    CountIff(s', r);
    hide Step, Inv, Ring;
    n := Returns(s'', r);
    AppendFinished(MainRun(s'', r, n), max);
    n := n + 2;
  }
}
