/** What goes wrong at the UART when the conditions of UartInterleaving are not met: a miscount of
    readAppend and an overrun of the ring. */
module UartFaults {
  import opened MachineInts
  import opened ByteQueue
  import opened Rings
  import opened UartCounting
  import opened UartInterleaving
  import opened UartReturns

  /** The loop body of readAppend takes the first byte of the ring, or appends 0 if there is none. */
  lemma CopiesOne(s: State, r: Reader)
    requires r.ReadAppend? && InRange(s) && s.pc.Loop? && |s.out| < s.goal
    ensures Resident(s) != [] ==>
      MainRun(s, r, 8) == s.(start := Next(s.start, |s.mem|), out := s.out + [Resident(s)[0]])
    ensures Resident(s) == [] ==> MainRun(s, r, 4) == s.(out := s.out + [0])
  {
    hide SizeValue, Ring;
    TornSize(s, s.end);
    RingSize(s.mem, s.start, s.end);
    if Resident(s) != [] {
      RingRead(s.mem, s.start, s.end);
      FetchesOne(s, r, Resident(s)[0]);
    } else {
      var s1 := s.(pc := CheckFirst);
      var s2 := s.(pc := CheckSecond(s.end));
      var s3 := s.(pc := Append(0));
      assert Step(s, r) == s1 && Step(s1, r) == s2;
      SameSize(s2, s);
      assert Step(s2, r) == s3;
      assert MainRun(s, r, 4) == MainRun(s1, r, 3) == MainRun(s2, r, 2) == MainRun(s3, r, 1) == Step(s3, r);
    }
  }

  lemma SameSize(s: State, t: State)
    requires s.mem == t.mem && s.start == t.start && s.end == t.end
    ensures SizeValue(s, s.end) == SizeValue(t, t.end)
  {
  }

  lemma FetchesOne(s: State, r: Reader, c: uint8)
    requires r.ReadAppend? && InRange(s) && s.pc.Loop? && |s.out| < s.goal
    requires s.start != s.end && s.mem[s.start] == c && SizeValue(s, s.end) != 0
    ensures MainRun(s, r, 8) == s.(start := Next(s.start, |s.mem|), out := s.out + [c])
  {
    hide SizeValue;
    var s1 := s.(pc := CheckFirst);
    var s2 := s.(pc := CheckSecond(s.end));
    var s3 := s.(pc := Test);
    assert Step(s, r) == s1 && Step(s1, r) == s2;
    SameSize(s2, s);
    assert Step(s2, r) == s3;
    var s4 := s.(pc := Fetch);
    var s5 := s.(pc := Increment(c));
    var s6 := s.(pc := Wrap(c), start := s.start + 1);
    var s7 := s.(pc := Append(c), start := Next(s.start, |s.mem|));
    assert Step(s3, r) == s4 && Step(s4, r) == s5 && Step(s5, r) == s6 && Step(s6, r) == s7;
    assert MainRun(s, r, 8) == MainRun(s1, r, 7) == MainRun(s2, r, 6) == MainRun(s3, r, 5) == MainRun(s4, r, 4);
    assert MainRun(s4, r, 4) == MainRun(s5, r, 3) == MainRun(s6, r, 2) == MainRun(s7, r, 1) == Step(s7, r);
  }

  function Zeros(n: nat): Bytes {
    seq(n, _ => 0)
  }

  /** Left alone, the loop of readAppend takes what there is and fills up with zeros. */
  lemma {:induction false} CopyLoop(s: State, r: Reader) returns (n: nat)
    requires r.ReadAppend? && InRange(s) && s.pc.Loop? && |s.out| + |Resident(s)| <= s.goal
    ensures MainRun(s, r, n).pc.Done?
    ensures MainRun(s, r, n).out == s.out + Resident(s) + Zeros(s.goal - |s.out| - |Resident(s)|)
    decreases s.goal - |s.out|, 1
  {
    hide Ring, SizeValue, Resident;
    FilledUp(s.out, Resident(s), s.goal - |s.out| - |Resident(s)|);
    if |s.out| == s.goal {
      n := 1;
      LoopDone(s, r);
    } else if Resident(s) != [] {
      CopiesOne(s, r);
      n := CopyRest(s, MainRun(s, r, 8), r, 8);
    } else {
      CopiesOne(s, r);
      n := CopyRest(s, MainRun(s, r, 4), r, 4);
    }
  }

  lemma CopyRest(s: State, t: State, r: Reader, k: nat) returns (n: nat)
    requires r.ReadAppend? && InRange(s) && s.pc.Loop? && |s.out| + |Resident(s)| <= s.goal && |s.out| < s.goal
    requires t == MainRun(s, r, k)
    requires t == if Resident(s) != [] then s.(start := Next(s.start, |s.mem|), out := s.out + [Resident(s)[0]])
      else s.(out := s.out + [0])
    ensures MainRun(s, r, n).pc.Done?
    ensures MainRun(s, r, n).out == s.out + Resident(s) + Zeros(s.goal - |s.out| - |Resident(s)|)
    decreases s.goal - |s.out|, 0
  {
    hide Ring, SizeValue, Resident, Step, MainRun;
    NextResident(s, t);
    n := CopyLoop(t, r);
    MainRunAdd(s, r, k, n);
    n := k + n;
    FilledUp(s.out, Resident(s), s.goal - |s.out| - |Resident(s)|);
  }

  lemma LoopDone(s: State, r: Reader)
    requires r.ReadAppend? && s.pc.Loop? && |s.out| >= s.goal
    ensures MainRun(s, r, 1) == s.(pc := Done)
  {
    assert MainRun(s, r, 1) == MainRun(Step(s, r), r, 0);
  }

  lemma NextResident(s: State, t: State)
    requires InRange(s) && s.pc.Loop? && t.mem == s.mem && t.end == s.end && t.pc.Loop?
    requires t.start == if Resident(s) != [] then Next(s.start, |s.mem|) else s.start
    ensures InRange(t) && Resident(t) == if Resident(s) != [] then Resident(s)[1..] else []
  {
    RingSize(s.mem, s.start, s.end);
    if Resident(s) != [] {
      RingRead(s.mem, s.start, s.end);
    }
  }

  lemma FilledUp(out: Bytes, ring: Bytes, n: nat)
    ensures ring != [] ==> out + [ring[0]] + ring[1..] + Zeros(n) == out + ring + Zeros(n)
    ensures ring == [] && n > 0 ==> out + [0] + ring + Zeros(n - 1) == out + ring + Zeros(n)
    ensures ring == [] && n == 0 ==> out + ring + Zeros(n) == out
  {
  }

  /** After a miscount readAppend returns its maximum: the bytes received and then zeros that nobody
      has sent. */
  lemma MiscountPads(s: State, r: Reader) returns (n: nat)
    requires Inv(s, r) && Miscounts(s, r) && Limit(r) + |s.mem| <= 0x1_0000_0000
    ensures MainRun(s, r, n).pc.Done?
    ensures MainRun(s, r, n).out == Resident(s) + Zeros(Limit(r) - |Resident(s)|)
  {
    hide Ring;
    TornValue(s, s.pc.e);
    var t := Step(s, r);
    n := CopyLoop(t, r);
    assert [] + Resident(s) == Resident(s);
    n := n + 1;
  }

  /** What a state of readAppend's count looks like when the end index has got to position i. */
  predicate CountedTo(t: State, size: nat, start: nat, end: nat, i: nat) {
    t.pc == CountSecond(end) && |t.mem| == size && t.start == start && t.end == if i == size then 0 else i
  }

  /** The first step of readAppend and then interrupts until the end index wraps around, which is a
      miscount. */
  lemma MiscountRun(mem: Bytes, start: nat, end: nat, max: nat) returns (states: seq<State>, actions: seq<Action>)
    requires 0 < |mem| < 0x1_0000_0000 && end < |mem| && AtRisk(|mem|, start, end, max)
    ensures IsRun(states, actions, ReadAppend(max)) && states[0] == Initial(mem, start, end, ReadAppend(max))
    ensures Inv(states[|actions|], ReadAppend(max)) && Miscounts(states[|actions|], ReadAppend(max))
    ensures Resident(states[|actions|]) == Ring(mem, start, end) + Pushed(actions)
    ensures |states[|actions|].mem| == |mem| && |Resident(states[|actions|])| < max
  {
    var r := ReadAppend(max);
    var first := Initial(mem, start, end, r);
    InitialInv(mem, start, end, r);
    StepKeepsInv(first, r);
    states, actions := [first, Step(first, r)], [Main];
    assert Pushed(actions) == [];
    hide Inv, Transition, Miscounts, Resident, Initial, Interrupted, Ring;
    for i := end to |mem|
      invariant IsRun(states, actions, r) && states[0] == first
      invariant CountedTo(states[|actions|], |mem|, start, end, i)
      invariant Inv(states[|actions|], r) && states[|actions|].stream == Ring(mem, start, end) + Pushed(actions)
    {
      var t := states[|actions|];
      CountOn(t, |mem|, start, end, max, i);
      PushedOne(Ring(mem, start, end), actions);
      states, actions := states + [Interrupted(t, 0)], actions + [Interrupt(0)];
    }
    AtWrapAround(states[|actions|], |mem|, start, end, max);
  }

  lemma CountOn(t: State, size: nat, start: nat, end: nat, max: nat, i: nat)
    requires end <= i < size && AtRisk(size, start, end, max) && CountedTo(t, size, start, end, i)
    requires Inv(t, ReadAppend(max))
    ensures var t' := Interrupted(t, 0);
      && Transition(t, Interrupt(0), t', ReadAppend(max)) && CountedTo(t', size, start, end, i + 1)
      && Inv(t', ReadAppend(max)) && t'.stream == t.stream + [0]
  {
    RingSize(t.mem, t.start, t.end);
    PushKeepsInv(t, 0, ReadAppend(max));
  }

  lemma PushedOne(ring: Bytes, actions: seq<Action>)
    ensures ring + Pushed(actions + [Interrupt(0)]) == ring + Pushed(actions) + [0]
  {
    assert (actions + [Interrupt(0)])[..|actions|] == actions;
  }

  lemma AtWrapAround(t: State, size: nat, start: nat, end: nat, max: nat)
    requires AtRisk(size, start, end, max) && end < size && CountedTo(t, size, start, end, size)
    ensures Inv(t, ReadAppend(max)) ==>
      Miscounts(t, ReadAppend(max)) && Resident(t) == t.stream && |Resident(t)| < max && |t.mem| == size
  {
    RingSize(t.mem, t.start, t.end);
    if Inv(t, ReadAppend(max)) {
      assert t.out + InHand(t) + Resident(t) == Resident(t);
    }
  }

  /** readAppend can miscount if and only if the ring is at risk when it is called. */
  lemma MiscountIff(mem: Bytes, start: nat, end: nat, max: nat)
    requires 0 < |mem| < 0x1_0000_0000 && start < |mem| && end < |mem|
    ensures (exists states, actions ::
        && IsRun(states, actions, ReadAppend(max)) && states[0] == Initial(mem, start, end, ReadAppend(max))
        && Miscounts(states[|actions|], ReadAppend(max)))
      <==> AtRisk(|mem|, start, end, max)
  {
    var r := ReadAppend(max);
    if states, actions :| IsRun(states, actions, r) && states[0] == Initial(mem, start, end, r)
                          && Miscounts(states[|actions|], r) {
      MiscountNeedsRisk(mem, start, end, max, states, actions);
    }
    if AtRisk(|mem|, start, end, max) {
      var states, actions := MiscountRun(mem, start, end, max);
      assert IsRun(states, actions, r) && states[0] == Initial(mem, start, end, r) && Miscounts(states[|actions|], r);
    }
  }

  /** readAppend is right in every interleaving without overrun if and only if the ring is not at risk
      when it is called. */
  lemma ReadAppendRightIff(mem: Bytes, start: nat, end: nat, max: nat)
    requires 0 < |mem| < 0x1_0000_0000 && start < |mem| && end < |mem| && max + |mem| <= 0x1_0000_0000
    ensures (forall states: seq<State>, actions: seq<Action> |
        && IsRun(states, actions, ReadAppend(max)) && states[0] == Initial(mem, start, end, ReadAppend(max))
        && states[|actions|].pc.Done? ::
        AppendRight(states[|actions|], Ring(mem, start, end) + Pushed(actions), |Ring(mem, start, end)|, max))
      <==> !AtRisk(|mem|, start, end, max)
  {
    hide AppendRight, Initial, AtRisk;
    if AtRisk(|mem|, start, end, max) {
      var states, actions := WrongRun(mem, start, end, max);
    } else {
      forall states: seq<State>, actions: seq<Action> |
        && IsRun(states, actions, ReadAppend(max)) && states[0] == Initial(mem, start, end, ReadAppend(max))
        && states[|actions|].pc.Done?
        ensures
          AppendRight(states[|actions|], Ring(mem, start, end) + Pushed(actions), |Ring(mem, start, end)|, max)
      {
        ReadAppendCorrect(mem, start, end, states, actions, max);
      }
    }
  }

  lemma WrongRun(mem: Bytes, start: nat, end: nat, max: nat) returns (states: seq<State>, actions: seq<Action>)
    requires 0 < |mem| < 0x1_0000_0000 && end < |mem| && max + |mem| <= 0x1_0000_0000
    requires AtRisk(|mem|, start, end, max)
    ensures IsRun(states, actions, ReadAppend(max)) && states[0] == Initial(mem, start, end, ReadAppend(max))
    ensures states[|actions|].pc.Done?
    ensures !AppendRight(states[|actions|], Ring(mem, start, end) + Pushed(actions), |Ring(mem, start, end)|, max)
  {
    var r := ReadAppend(max);
    states, actions := MiscountRun(mem, start, end, max);
    var s := states[|actions|];
    hide *;
    var n := MiscountPads(s, r);
    var t := MainRun(s, r, n);
    TooLong(t, Resident(s), |Ring(mem, start, end)|, max);
    states, actions := RunOn(states, actions, r, n);
  }

  lemma TooLong(t: State, received: Bytes, available: nat, max: nat)
    requires |received| < max && t.out == received + Zeros(max - |received|)
    ensures !AppendRight(t, received, available, max)
  {
  }

  /** No caller is at risk who asks for at most one byte or for no more than there is. */
  lemma RiskBound(mem: Bytes, start: nat, end: nat, max: nat)
    requires start < |mem| && end < |mem|
    ensures AtRisk(|mem|, start, end, max) ==> 1 < max && |Ring(mem, start, end)| < max
  {
    RingSize(mem, start, end);
  }

  /** The flag of push tells an overrun from a push with room, except while the start index is
      beyond its wrap-around: there the overrun is not reported. */
  lemma OverrunReportedIff(s: State)
    requires InRange(s)
    ensures Reported(s) <==> !HasRoom(s) && s.start < |s.mem|
  {
    RingSize(s.mem, LogicalStart(s), s.end);
  }

  /** Room is necessary as well as sufficient for a push to keep the stream whole. */
  lemma RoomNeeded(s: State, c: uint8, r: Reader)
    requires Inv(s, r)
    ensures Inv(Interrupted(s, c), r) <==> HasRoom(s)
  {
    if HasRoom(s) {
      PushKeepsInv(s, c, r);
    } else {
      OverrunLosesBytes(s, c);
    }
  }

  lemma OverrunLosesBytes(s: State, c: uint8)
    requires InRange(s) && !HasRoom(s)
    ensures InRange(Interrupted(s, c)) && |Resident(Interrupted(s, c))| == if s.start < |s.mem| then |s.mem| - 1 else 0
  {
    hide HasRoom;
    var t := Interrupted(s, c);
    RingSize(s.mem, LogicalStart(s), s.end);
    RingSize(t.mem, LogicalStart(t), t.end);
    FullRing(s);
  }

  lemma FullRing(s: State)
    requires InRange(s) && !HasRoom(s)
    ensures Next(s.end, |s.mem|) == LogicalStart(s) && |Resident(s)| == |s.mem| - 1
  {
    RingSize(s.mem, LogicalStart(s), s.end);
  }

  /** When a push finds the ring full between the increment of the start index and its wrap-around,
      it reports nothing and moves no byte out of the way, and after the wrap-around the full ring
      counts as empty. */
  lemma OverrunDuringWrap(s: State, c: uint8, r: Reader)
    requires InRange(s) && s.start == |s.mem| && !HasRoom(s)
    ensures !Reported(s)
    ensures var t := Step(Interrupted(s, c), r);
      t.start == t.end && Ring(t.mem, t.start, t.end) == []
  {
    RingSize(s.mem, 0, s.end);
  }

  /** The state after i steps towards the wrap-around. */
  predicate ToWrap(s: State, mem: Bytes, r: Reader, i: nat) {
    && 2 <= |mem| < 0x1_0000_0000 && s.mem == mem && s.end == |mem| - 2 && s.out == []
    && s.start == (if i == 8 then |mem| else |mem| - 1)
    && (r.ReadUntil? || 2 <= i ==> 0 < s.goal)
    && match i
       case 0 => if r.ReadUntil? then s.pc.Loop? else s.pc.CountFirst?
       case 1 => if r.ReadUntil? then s.pc.SizeFirst? else s.pc.CountSecond? && s.pc.e == s.end
       case 2 => if r.ReadUntil? then s.pc.SizeSecond? && s.pc.e == s.end else s.pc.Loop?
       case 3 => s.pc.CheckFirst?
       case 4 => s.pc.CheckSecond? && s.pc.e == s.end
       case 5 => s.pc.Test?
       case 6 => s.pc.Fetch?
       case 7 => s.pc.Increment?
       case _ => s.pc.Wrap?
  }

  lemma ToWrapStep(s: State, mem: Bytes, r: Reader, i: nat)
    requires ToWrap(s, mem, r, i) && i < 8 && 0 < Limit(r)
    ensures Transition(s, Main, Step(s, r), r) && ToWrap(Step(s, r), mem, r, i + 1)
  {
    hide SizeValue;
    RingSize(mem, |mem| - 1, |mem| - 2);
    TornSize(s, s.end);
  }

  lemma FillUp(s: State, mem: Bytes, c: uint8, r: Reader)
    requires ToWrap(s, mem, r, 8)
    ensures Transition(s, Interrupt(c), Interrupted(s, c), r)
    ensures var t := Interrupted(s, c); InRange(t) && t.start == |t.mem| && !HasRoom(t)
  {
    var t := Interrupted(s, c);
    RingSize(s.mem, 0, s.end);
    RingSize(t.mem, 0, t.end);
  }

  /** Every ring can get there: it is full when a read takes the byte at its last position, and one
      byte arrives before the start index wraps around. */
  lemma OverrunReachable(mem: Bytes, c: uint8, r: Reader) returns (states: seq<State>, actions: seq<Action>)
    requires 2 <= |mem| < 0x1_0000_0000 && 0 < Limit(r)
    ensures states != [] && states[0] == Initial(mem, |mem| - 1, |mem| - 2, r) && Inv(states[0], r)
    ensures IsRun(states, actions, r)
    ensures var t := states[|actions|]; InRange(t) && t.start == |t.mem| && !HasRoom(t)
  {
    hide Transition, Inv, Step, Interrupted;
    states, actions := [Initial(mem, |mem| - 1, |mem| - 2, r)], [];
    InitialInv(mem, |mem| - 1, |mem| - 2, r);
    for i := 0 to 8
      invariant |states| == |actions| + 1 == i + 1 && IsRun(states, actions, r)
      invariant states[0] == Initial(mem, |mem| - 1, |mem| - 2, r) && Inv(states[0], r)
      invariant ToWrap(states[i], mem, r, i)
    {
      ToWrapStep(states[i], mem, r, i);
      states, actions := states + [Step(states[i], r)], actions + [Main];
    }
    FillUp(states[8], mem, c, r);
    states, actions := states + [Interrupted(states[8], c)], actions + [Interrupt(c)];
  }
}
