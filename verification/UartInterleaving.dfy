/** The receive interrupt interleaved with readUntil, readAppend and the loop of the Sigfox driver.
    Interrupts are not masked while the first two and the one-byte read they call use the ring, nor
    while the third asks for its size, so the main program is modelled one access to the shared
    indices at a time, and the interrupt may push a byte between any two of them. */
module UartInterleaving {
  import opened MachineInts
  import opened ByteQueue
  import opened Rings

  /** The call that is running. */
  datatype Reader = ReadUntil(endc: uint8, max: nat) | ReadAppend(max: nat) | Drain

  /** Where the main program stands. The Second steps lie between the two reads of the end index in
      size(): e is the value it had at the first. The byte c has been fetched but not yet appended. */
  datatype Pc =
    | CountFirst      // readAppend's dataAvailable: about to read the indices for the comparison
    | CountSecond(e: nat)
    | Loop            // the test of the received size against the goal
    | SizeFirst       // dataAvailable in the loops of readUntil and of the Sigfox driver
    | SizeSecond(e: nat)
    | CheckFirst      // read: about to do the same again
    | CheckSecond(e: nat)
    | Test            // pull: the comparison of start and end
    | Fetch           // reading the byte at start
    | Increment(c: uint8)
    | Wrap(c: uint8)  // start has been incremented and is about to be compared with the size
    | Append(c: uint8)
    | Take            // the masked read of one byte in the Sigfox driver
    | Done

  /** goal is the number of bytes to read: maxBytes, or in readAppend the number it has settled on.
      stream records every byte that was in the ring at the beginning or has been pushed since. */
  datatype State = State(mem: Bytes, start: nat, end: nat, pc: Pc, goal: nat, out: Bytes, stream: Bytes)

  datatype Action = Main | Interrupt(c: uint8)

  /** The value of size(), computed in 32-bit arithmetic from two reads of the end index. */
  function SizeValue(s: State, e: nat): uint32 {
    if e >= s.start then ToUInt32(s.end - s.start) else ToUInt32(ToUInt32(|s.mem| + s.end) - s.start)
  }

  /** CircularBuffer::push of one byte, as the interrupt handler runs it. */
  function Interrupted(s: State, c: uint8): State
    requires s.end < |s.mem|
  {
    s.(mem := s.mem[s.end := c], end := Next(s.end, |s.mem|), stream := s.stream + [c],
       start := if Reported(s) then Next(s.start, |s.mem|) else s.start)
  }

  /** The overrun flag that push would return. */
  predicate Reported(s: State) {
    Next(s.end, |s.mem|) == s.start
  }

  function Step(s: State, r: Reader): State {
    match s.pc
    case CountFirst => s.(pc := CountSecond(s.end))
    case CountSecond(e) => s.(pc := Loop, goal := AtMost(SizeValue(s, e), Limit(r)))
    case Loop => s.(pc := if r.Drain? then SizeFirst else if |s.out| >= s.goal then Done
                          else if r.ReadUntil? then SizeFirst else CheckFirst)
    case SizeFirst => s.(pc := SizeSecond(s.end))
    case SizeSecond(e) => s.(pc := if SizeValue(s, e) != 0 then if r.Drain? then Take else CheckFirst
                                   else if r.Drain? then Done else Loop)
    case CheckFirst => s.(pc := CheckSecond(s.end))
    case CheckSecond(e) => s.(pc := if SizeValue(s, e) == 0 then Append(0) else Test)
    case Test => s.(pc := if s.start != s.end then Fetch else Append(0))
    case Fetch => s.(pc := Increment(if s.start < |s.mem| then s.mem[s.start] else 0))
    case Increment(c) => s.(start := s.start + 1, pc := Wrap(c))
    case Wrap(c) => s.(start := if s.start == |s.mem| then 0 else s.start, pc := Append(c))
    case Append(c) => s.(out := s.out + [c], pc := if r.ReadUntil? && c == r.endc then Done else Loop)
    case Take => if s.start != s.end && s.start < |s.mem|
      then s.(start := Next(s.start, |s.mem|), out := s.out + [s.mem[s.start]], pc := Loop)
      else s.(out := s.out + [0], pc := Loop)
    case Done => s
  }

  function Limit(r: Reader): nat {
    match r case ReadUntil(_, max) => max case ReadAppend(max) => max case Drain => 0
  }

  function AtMost(n: nat, max: nat): nat {
    if n < max then n else max
  }

  /** The start index as it will be once a pending wrap-around is done. */
  function LogicalStart(s: State): nat {
    if s.start == |s.mem| then 0 else s.start
  }

  predicate InRange(s: State) {
    0 < |s.mem| < 0x1_0000_0000 && s.end < |s.mem| && s.start <= |s.mem| && (s.start == |s.mem| ==> s.pc.Wrap?)
  }

  function Resident(s: State): Bytes
    requires InRange(s)
  {
    Ring(s.mem, LogicalStart(s), s.end)
  }

  /** The byte that has left the ring and not yet arrived in the result. */
  function InHand(s: State): Bytes {
    match s.pc case Wrap(c) => [c] case Append(c) => [c] case _ => []
  }

  /** The ring has a free byte besides the one that must stay free. */
  predicate HasRoom(s: State)
    requires InRange(s)
  {
    |Resident(s)| < |s.mem| - 1
  }

  /** How far position i lies beyond the start, going around. */
  function Ahead(s: State, i: nat): int {
    if LogicalStart(s) <= i then i - LogicalStart(s) else |s.mem| + i - LogicalStart(s)
  }

  /** Between the two reads of the end index no more than the ring holds has been pushed. */
  predicate Between(s: State, e: nat) {
    e < |s.mem| && Ahead(s, e) <= Ahead(s, s.end)
  }

  /** A finished result: max bytes, or fewer up to an endc, with no other endc in it. */
  predicate Complete(out: Bytes, endc: uint8, max: nat) {
    && |out| <= max && (forall i | 0 <= i < |out| - 1 :: out[i] != endc)
    && (|out| == max || (out != [] && out[|out| - 1] == endc))
  }

  /** What every step keeps about the ring. */
  predicate RingInv(s: State) {
    && InRange(s)
    && s.out + InHand(s) + Resident(s) == s.stream
    && (s.pc.CheckFirst? || s.pc.CheckSecond? || s.pc.Test? || s.pc.Fetch? || s.pc.Increment? || s.pc.Take? ==>
          Resident(s) != [])
    && (s.pc.CountSecond? || s.pc.SizeSecond? || s.pc.CheckSecond? ==> Between(s, s.pc.e))
    && (s.pc.Increment? ==> Resident(s)[0] == s.pc.c)
  }

  /** What every step keeps about the result. */
  predicate GoalInv(s: State, r: Reader)
    requires InRange(s)
  {
    match r
    case ReadUntil(endc, max) =>
      && s.goal == max && !s.pc.CountFirst? && !s.pc.CountSecond? && !s.pc.Take?
      && (s.pc.Done? || |s.out| <= s.goal) && (s.pc.Loop? || s.pc.Done? || |s.out| < s.goal)
      && if s.pc.Done? then Complete(s.out, endc, max) else endc !in s.out
    case ReadAppend(max) =>
      && !s.pc.SizeFirst? && !s.pc.SizeSecond? && !s.pc.Take? && s.goal <= max
      && (s.pc.CountFirst? || s.pc.CountSecond? ==> s.out == [] && s.goal == 0)
      && (s.pc.Done? || |s.out| <= s.goal)
      && (s.pc.Loop? || s.pc.Done? || s.pc.CountFirst? || s.pc.CountSecond? || |s.out| < s.goal)
      && (s.pc.Done? ==> |s.out| == s.goal)
      && s.goal <= |s.out| + |InHand(s)| + |Resident(s)|
    case Drain =>
      s.pc.Loop? || s.pc.SizeFirst? || s.pc.SizeSecond? || s.pc.Take? || s.pc.Done?
  }

  ghost predicate Inv(s: State, r: Reader) {
    RingInv(s) && GoalInv(s, r)
  }

  lemma SizeWraps(size: nat, start: nat, end: nat)
    requires end < start < size < 0x1_0000_0000
    ensures ToUInt32(ToUInt32(size + end) - start) == size + end - start
  {
    var sum := size + end;
    if sum < 0x1_0000_0000 {
      WrapSmall(sum);
      WrapSmall(sum - start);
    } else {
      DivModUnique(sum, 0x1_0000_0000, 1, sum - 0x1_0000_0000);
      DivModUnique(sum - 0x1_0000_0000 - start, 0x1_0000_0000, -1, sum - start);
    }
  }

  lemma DifferenceWraps(start: nat, end: nat)
    requires start < 0x1_0000_0000 && end < 0x1_0000_0000
    ensures ToUInt32(end - start) == if start <= end then end - start else 0x1_0000_0000 + end - start
  {
    if end >= start {
      WrapSmall(end - start);
    } else {
      DivModUnique(end - start, 0x1_0000_0000, -1, 0x1_0000_0000 + end - start);
    }
  }

  /** The end index has wrapped around between the two reads: the difference of the indices is
      negative and stands for a number close to 2^32. */
  predicate Torn(s: State, e: nat) {
    s.end < s.start <= e
  }

  lemma TornValue(s: State, e: nat)
    requires InRange(s) && s.start < |s.mem| && Between(s, e)
    ensures SizeValue(s, e) == if Torn(s, e) then 0x1_0000_0000 + s.end - s.start else |Resident(s)|
  {
    RingSize(s.mem, s.start, s.end);
    if e < s.start {
      SizeWraps(|s.mem|, s.start, s.end);
    } else {
      DifferenceWraps(s.start, s.end);
    }
  }

  /** size() is zero exactly when the ring is empty at the second read of the end index, even if
      bytes arrived in between; but it is the number of bytes in the ring only if the end index did
      not wrap around in between. */
  lemma TornSize(s: State, e: nat)
    requires InRange(s) && s.start < |s.mem| && Between(s, e)
    ensures SizeValue(s, e) == 0 <==> Resident(s) == []
    ensures SizeValue(s, e) == |Resident(s)| <==> !Torn(s, e)
  {
    RingSize(s.mem, s.start, s.end);
    TornValue(s, e);
  }

  /** readAppend asks for bytes that are not there. */
  predicate Miscounts(s: State, r: Reader) {
    s.pc.CountSecond? && InRange(s) && Torn(s, s.pc.e) && |Resident(s)| < Limit(r)
  }

  /** readAppend settles on what is available, up to its maximum, exactly if it does not miscount. */
  lemma CountIff(s: State, r: Reader)
    requires Inv(s, r) && s.pc.CountSecond?
    ensures Step(s, r).goal == AtMost(|Resident(s)|, Limit(r)) <==> !Miscounts(s, r)
  {
    RingSize(s.mem, s.start, s.end);
    TornValue(s, s.pc.e);
  }

  /** A push into a ring with room adds the byte behind the others and moves nothing the main
      program depends on. */
  lemma PushKeepsInv(s: State, c: uint8, r: Reader)
    requires Inv(s, r) && HasRoom(s)
    ensures Inv(Interrupted(s, c), r)
    ensures Interrupted(s, c).start == s.start && Resident(Interrupted(s, c)) == Resident(s) + [c]
  {
    RingWrite(s.mem, LogicalStart(s), s.end, c);
    RingSize(s.mem, LogicalStart(s), s.end);
    var t := Interrupted(s, c);
    assert t.out + InHand(t) + Resident(t) == s.stream + [c];
  }

  lemma StepKeepsInv(s: State, r: Reader)
    requires Inv(s, r) && !Miscounts(s, r)
    ensures Inv(Step(s, r), r)
    ensures Step(s, r).stream == s.stream
  {
    if s.pc.CountSecond? {
      CountKeepsInv(s, r);
    } else if s.pc.SizeSecond? || s.pc.CheckSecond? {
      TornSize(s, s.pc.e);
    } else if s.pc.Test? || s.pc.Fetch? {
      FetchKeepsInv(s, r);
    } else if s.pc.Increment? {
      IncrementKeepsInv(s, r);
    } else if s.pc.Append? {
      AppendKeepsInv(s, r);
    } else if s.pc.Take? {
      TakeKeepsInv(s, r);
    }
  }

  lemma TakeKeepsInv(s: State, r: Reader)
    requires Inv(s, r) && s.pc.Take?
    ensures Inv(Step(s, r), r)
  {
    RingSize(s.mem, s.start, s.end);
    RingRead(s.mem, s.start, s.end);
    var t := Step(s, r);
    FirstToHand(s.out, Resident(s), s.mem[s.start]);
    assert t.out + InHand(t) + Resident(t) == t.out + Resident(t);
  }

  lemma CountKeepsInv(s: State, r: Reader)
    requires Inv(s, r) && s.pc.CountSecond? && !Miscounts(s, r)
    ensures Inv(Step(s, r), r)
  {
    hide SizeValue;
    CountIff(s, r);
  }

  lemma FetchKeepsInv(s: State, r: Reader)
    requires Inv(s, r) && (s.pc.Test? || s.pc.Fetch?)
    ensures Inv(Step(s, r), r)
  {
    RingSize(s.mem, s.start, s.end);
    RingRead(s.mem, s.start, s.end);
  }

  lemma IncrementKeepsInv(s: State, r: Reader)
    requires Inv(s, r) && s.pc.Increment?
    ensures Inv(Step(s, r), r)
  {
    RingSize(s.mem, s.start, s.end);
    RingRead(s.mem, s.start, s.end);
    var t := Step(s, r);
    assert LogicalStart(t) == Next(s.start, |s.mem|);
    FirstToHand(s.out, Resident(s), s.pc.c);
  }

  lemma FirstToHand(out: Bytes, ring: Bytes, c: uint8)
    requires ring != [] && ring[0] == c
    ensures out + [c] + ring[1..] == out + [] + ring
  {
  }

  lemma AppendKeepsInv(s: State, r: Reader)
    requires Inv(s, r) && s.pc.Append?
    ensures Inv(Step(s, r), r)
  {
    hide Ring;
    assert s.out + [s.pc.c] + [] == s.out + [s.pc.c];
  }

  /** A finished result is the stream up to and including the first endc, or its first max bytes. */
  function Until(stream: Bytes, endc: uint8, max: nat): Bytes {
    if max == 0 || stream == [] then []
    else if stream[0] == endc then [endc]
    else [stream[0]] + Until(stream[1..], endc, max - 1)
  }

  lemma {:induction false} CompleteIsUntil(out: Bytes, rest: Bytes, endc: uint8, max: nat)
    requires Complete(out, endc, max)
    ensures Until(out + rest, endc, max) == out
  {
    if out != [] {
      assert (out + rest)[1..] == out[1..] + rest;
      if out[0] != endc {
        CompleteIsUntil(out[1..], rest, endc, max - 1);
      }
    }
  }

  /** One step of the system. The interrupt may come at any point at which the ring has room. */
  ghost predicate Transition(s: State, a: Action, t: State, r: Reader) {
    match a
    case Main => t == Step(s, r)
    case Interrupt(c) => InRange(s) && HasRoom(s) && t == Interrupted(s, c)
  }

  /** An interleaving without overrun: states[i] goes to states[i + 1] by actions[i]. */
  ghost predicate IsRun(states: seq<State>, actions: seq<Action>, r: Reader) {
    && |states| == |actions| + 1
    && forall i | 0 <= i < |actions| :: Transition(states[i], actions[i], states[i + 1], r)
  }

  ghost predicate NoMiscount(states: seq<State>, r: Reader) {
    forall i | 0 <= i < |states| :: !Miscounts(states[i], r)
  }

  function Pushed(actions: seq<Action>): Bytes {
    if actions == [] then [] else
      Pushed(actions[..|actions| - 1])
      + match actions[|actions| - 1] case Main => [] case Interrupt(c) => [c]
  }

  /** A ring as the call finds it. */
  function Initial(mem: Bytes, start: nat, end: nat, r: Reader): State
    requires start < |mem| && end < |mem|
  {
    match r
    case ReadUntil(_, max) => State(mem, start, end, Loop, max, [], Ring(mem, start, end))
    case ReadAppend(_) => State(mem, start, end, CountFirst, 0, [], Ring(mem, start, end))
    case Drain => State(mem, start, end, Loop, 0, [], Ring(mem, start, end))
  }

  lemma InitialInv(mem: Bytes, start: nat, end: nat, r: Reader)
    requires 0 < |mem| < 0x1_0000_0000 && start < |mem| && end < |mem|
    ensures Inv(Initial(mem, start, end, r), r)
    ensures Initial(mem, start, end, r).stream == Ring(mem, start, end)
    ensures r.ReadAppend? ==> Initial(mem, start, end, r).pc.CountFirst?
  {
    hide Ring;
    assert [] + [] + Ring(mem, start, end) == Ring(mem, start, end);
  }

  lemma TransitionKeepsInv(s: State, a: Action, t: State, r: Reader)
    requires Inv(s, r) && Transition(s, a, t, r) && !Miscounts(s, r)
    ensures Inv(t, r)
    ensures t.stream == s.stream + match a case Main => [] case Interrupt(c) => [c]
  {
    match a {
      case Main => StepKeepsInv(s, r);
      case Interrupt(c) => PushKeepsInv(s, c, r);
    }
  }

  lemma RunPrefix(states: seq<State>, actions: seq<Action>, r: Reader)
    requires IsRun(states, actions, r) && actions != []
    ensures var n := |actions|;
      && IsRun(states[..n], actions[..n - 1], r)
      && states[..n][0] == states[0] && states[..n][n - 1] == states[n - 1]
      && Transition(states[n - 1], actions[n - 1], states[n], r)
      && (NoMiscount(states, r) ==> NoMiscount(states[..n], r) && !Miscounts(states[n - 1], r))
  {
  }

  lemma {:induction false} RunKeepsInv(states: seq<State>, actions: seq<Action>, r: Reader)
    requires IsRun(states, actions, r) && Inv(states[0], r) && (r.ReadAppend? ==> NoMiscount(states, r))
    ensures Inv(states[|actions|], r)
    ensures states[|actions|].stream == states[0].stream + Pushed(actions)
  {
    hide Inv, Transition, NoMiscount, Miscounts;
    var n := |actions|;
    if n > 0 {
      RunPrefix(states, actions, r);
      RunKeepsInv(states[..n], actions[..n - 1], r);
      OnlyAppendCounts(states[n - 1], r);
      TransitionKeepsInv(states[n - 1], actions[n - 1], states[n], r);
    }
  }

  lemma OnlyAppendCounts(s: State, r: Reader)
    requires Inv(s, r)
    ensures !r.ReadAppend? ==> !Miscounts(s, r)
  {
  }

  /** In every interleaving without overrun the bytes delivered, the byte in hand and the bytes in
      the ring are, in this order, exactly those received; and when readUntil has returned, its
      result is the right one for that stream and the rest is still in the ring. */
  lemma ReadUntilCorrect(mem: Bytes, start: nat, end: nat, states: seq<State>, actions: seq<Action>,
                         endc: uint8, max: nat)
    requires 0 < |mem| < 0x1_0000_0000 && start < |mem| && end < |mem|
    requires IsRun(states, actions, ReadUntil(endc, max))
    requires states[0] == Initial(mem, start, end, ReadUntil(endc, max))
    ensures var t, received := states[|actions|], Ring(mem, start, end) + Pushed(actions);
      && InRange(t)
      && t.out + InHand(t) + Resident(t) == received
      && (t.pc.Done? ==> t.out == Until(received, endc, max) && Resident(t) == received[|t.out|..])
  {
    assert |states| == |actions| + 1;
    hide IsRun, Inv, Initial, Until, Ring, Pushed;
    InitialInv(mem, start, end, ReadUntil(endc, max));
    RunKeepsInv(states, actions, ReadUntil(endc, max));
    UntilFinished(states[|actions|], endc, max);
  }

  lemma UntilFinished(t: State, endc: uint8, max: nat)
    requires Inv(t, ReadUntil(endc, max))
    ensures InRange(t) && t.out + InHand(t) + Resident(t) == t.stream
    ensures t.pc.Done? ==> t.out == Until(t.stream, endc, max) && Resident(t) == t.stream[|t.out|..]
  {
    hide Ring;
    if t.pc.Done? {
      CompleteIsUntil(t.out, Resident(t), endc, max);
      NothingInHand(t.out, Resident(t));
    }
  }

  lemma NothingInHand(out: Bytes, rest: Bytes)
    ensures var all := out + [] + rest; all == out + rest && all[..|out|] == out && all[|out|..] == rest
  {
  }

  /** The loop of the Sigfox driver takes at least what was there when it began, and what it has taken
      and what is left are the bytes received. */
  lemma DrainCorrect(mem: Bytes, start: nat, end: nat, states: seq<State>, actions: seq<Action>)
    requires 0 < |mem| < 0x1_0000_0000 && start < |mem| && end < |mem|
    requires IsRun(states, actions, Drain) && states[0] == Initial(mem, start, end, Drain)
    ensures var t, received := states[|actions|], Ring(mem, start, end) + Pushed(actions);
      && InRange(t)
      && t.out + Resident(t) == received
      && (t.pc.Done? ==> Ring(mem, start, end) <= t.out)
  {
    assert |states| == |actions| + 1;
    hide IsRun, Inv, Initial, Ring, Pushed;
    InitialInv(mem, start, end, Drain);
    RunKeepsInv(states, actions, Drain);
    DrainFloor(states, actions);
    DrainFinished(states[|actions|], Ring(mem, start, end), Pushed(actions));
  }

  lemma DrainFinished(t: State, ring: Bytes, pushed: Bytes)
    requires Inv(t, Drain) && t.stream == ring + pushed && (t.pc.Done? ==> |ring| <= |t.out|)
    ensures InRange(t) && t.out + Resident(t) == t.stream && (t.pc.Done? ==> ring <= t.out)
  {
    hide Ring;
    NothingInHand(t.out, Resident(t));
    if t.pc.Done? {
      assert ring == t.stream[..|t.out|][..|ring|];
    }
  }

  lemma {:induction false} DrainFloor(states: seq<State>, actions: seq<Action>)
    requires IsRun(states, actions, Drain) && Inv(states[0], Drain) && !states[0].pc.Done?
    ensures states[|actions|].pc.Done? ==> |states[0].stream| <= |states[|actions|].out|
  {
    var n := |actions|;
    if n > 0 {
      RunPrefix(states, actions, Drain);
      DrainFloor(states[..n], actions[..n - 1]);
      RunKeepsInv(states[..n], actions[..n - 1], Drain);
      DrainStep(states[n - 1], actions[n - 1], states[n]);
    }
  }

  lemma DrainStep(s: State, a: Action, t: State)
    requires Inv(s, Drain) && Transition(s, a, t, Drain)
    ensures t.pc.Done? ==> (s.pc.Done? && t.out == s.out) || |t.out| == |s.stream|
  {
    if s.pc.SizeSecond? {
      TornSize(s, s.pc.e);
    }
    hide SizeValue;
  }

  /** Main steps until the byte in hand, or else the next byte in the ring, has been appended. */
  function StepsToAppend(pc: Pc): nat {
    match pc
    case Append(_) => 1 case Wrap(_) => 2 case Increment(_) => 3 case Fetch => 4 case Test => 5
    case CheckSecond(_) => 6 case CheckFirst => 7 case SizeSecond(_) => 8 case SizeFirst => 9
    case Loop => 10 case CountSecond(_) => 11 case CountFirst => 12 case Take => 1 case Done => 0
  }

  function MainSteps(actions: seq<Action>): nat {
    if actions == [] then 0 else MainSteps(actions[..|actions| - 1]) + if actions[|actions| - 1].Main? then 1 else 0
  }

  /** A byte is at hand: in the ring, or on its way. */
  predicate ByteAvailable(s: State)
    requires InRange(s)
  {
    InHand(s) != [] || Resident(s) != []
  }

  /** Every main step brings an available byte closer; an interrupt does not delay it. */
  lemma StepAdvances(s: State, a: Action, t: State, r: Reader)
    requires Inv(s, r) && Transition(s, a, t, r) && !Miscounts(s, r) && !s.pc.Done? && ByteAvailable(s)
    ensures InRange(t)
    ensures a.Main? ==>
      || |t.out| == |s.out| + 1
      || t.pc.Done?
      || (t.out == s.out && StepsToAppend(t.pc) < StepsToAppend(s.pc) && ByteAvailable(t))
    ensures a.Interrupt? ==> t.out == s.out && t.pc == s.pc && ByteAvailable(t)
  {
    TransitionKeepsInv(s, a, t, r);
    match a {
      case Main =>
        if s.pc.SizeSecond? || s.pc.CheckSecond? { TornSize(s, s.pc.e); }
        RingSize(s.mem, LogicalStart(s), s.end);
        hide SizeValue;
      case Interrupt(c) => PushKeepsInv(s, c, r);
    }
  }

  /** No byte gets stuck: once one is available, ten steps of readUntil, twelve of readAppend,
      interrupted in whatever way, deliver a byte or finish. */
  lemma {:induction false} Progress(states: seq<State>, actions: seq<Action>, r: Reader)
    requires IsRun(states, actions, r) && Inv(states[0], r) && (r.ReadAppend? ==> NoMiscount(states, r))
    requires ByteAvailable(states[0]) && MainSteps(actions) >= if r.ReadAppend? then 12 else 10
    ensures exists i | 0 <= i <= |actions| :: states[i].pc.Done? || |states[i].out| > |states[0].out|
  {
    if forall i | 0 <= i <= |actions| :: !states[i].pc.Done? && |states[i].out| <= |states[0].out| {
      StillWaiting(states, actions, r);
    }
  }

  lemma {:induction false} StillWaiting(states: seq<State>, actions: seq<Action>, r: Reader)
    requires IsRun(states, actions, r) && Inv(states[0], r) && ByteAvailable(states[0])
    requires r.ReadAppend? ==> NoMiscount(states, r)
    requires forall i | 0 <= i <= |actions| :: !states[i].pc.Done? && |states[i].out| <= |states[0].out|
    ensures Inv(states[|actions|], r) && ByteAvailable(states[|actions|])
    ensures states[|actions|].out == states[0].out
    ensures StepsToAppend(states[|actions|].pc) + MainSteps(actions) <= StepsToAppend(states[0].pc)
    ensures !states[|actions|].pc.Done? && 0 < StepsToAppend(states[|actions|].pc)
  {
    hide Step, RingInv, GoalInv, Miscounts, NoMiscount, Transition, Resident, InHand;
    var n := |actions|;
    if n > 0 {
      RunPrefix(states, actions, r);
      StillWaiting(states[..n], actions[..n - 1], r);
      OnlyAppendCounts(states[n - 1], r);
      TransitionKeepsInv(states[n - 1], actions[n - 1], states[n], r);
      StepAdvances(states[n - 1], actions[n - 1], states[n], r);
    }
  }
}
