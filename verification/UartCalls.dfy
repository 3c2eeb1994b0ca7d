/** A series of calls of one reader, with the receive interrupt at any point of them and between
    them. */
module UartCalls {
  import opened MachineInts
  import opened ByteQueue
  import opened LineFraming
  import opened Rings
  import opened UartInterleaving
  import opened UartReturns

  /** A finished call. Bytes that arrive after it has returned are part of its run. */
  datatype Call = Call(states: seq<State>, actions: seq<Action>)

  ghost predicate IsCall(s: State, r: Reader, call: Call) {
    && IsRun(call.states, call.actions, r) && (r.ReadAppend? ==> NoMiscount(call.states, r))
    && s.start < |s.mem| && s.end < |s.mem| && call.states[0] == Initial(s.mem, s.start, s.end, r)
    && call.states[|call.actions|].pc.Done?
  }

  /** The state that a series of calls leaves behind. */
  function After(s: State, calls: seq<Call>): State {
    if calls == [] || calls[|calls| - 1].states == [] then s
    else var states := calls[|calls| - 1].states; states[|states| - 1]
  }

  /** Each call begins with the ring that the one before it has left. */
  ghost predicate AreCalls(s: State, r: Reader, calls: seq<Call>) {
    calls == [] ||
    (AreCalls(s, r, calls[..|calls| - 1]) && IsCall(After(s, calls[..|calls| - 1]), r, calls[|calls| - 1]))
  }

  /** What the calls have returned. */
  function Results(s: State, calls: seq<Call>): (chunks: seq<Bytes>)
    ensures |chunks| == |calls|
  {
    if calls == [] then [] else Results(s, calls[..|calls| - 1]) + [After(s, calls).out]
  }

  function Arrived(calls: seq<Call>): Bytes {
    if calls == [] then [] else Arrived(calls[..|calls| - 1]) + Pushed(calls[|calls| - 1].actions)
  }

  /** Over all calls the results, one behind the other, and the bytes in the ring are the bytes that
      were there and those that have arrived. */
  lemma {:induction false} CallsConserve(s: State, r: Reader, calls: seq<Call>)
    requires RingInv(s) && s.pc.Done? && AreCalls(s, r, calls)
    ensures var t := After(s, calls);
      && RingInv(t) && t.pc.Done?
      && Concat(Results(s, calls)) + Resident(t) == Resident(s) + Arrived(calls)
  {
    var n := |calls|;
    if n == 0 {
      assert [] + Resident(s) == Resident(s) + [];
    } else {
      CallsConserve(s, r, calls[..n - 1]);
      OneCall(After(s, calls[..n - 1]), r, calls[n - 1]);
      hide RingInv, IsCall, Resident;
      assert Results(s, calls)[..n - 1] == Results(s, calls[..n - 1]);
      ChainCalls(Concat(Results(s, calls[..n - 1])), Resident(After(s, calls[..n - 1])), Resident(s),
                 Arrived(calls[..n - 1]), Pushed(calls[n - 1].actions), After(s, calls).out, Resident(After(s, calls)));
    }
  }

  lemma OneCall(s: State, r: Reader, call: Call)
    requires RingInv(s) && s.pc.Done? && IsCall(s, r, call)
    ensures var t := call.states[|call.actions|];
      && |call.states| == |call.actions| + 1
      && RingInv(t) && t.pc.Done? && t.out + Resident(t) == Resident(s) + Pushed(call.actions)
  {
    hide Ring;
    InitialInv(s.mem, s.start, s.end, r);
    RunKeepsInv(call.states, call.actions, r);
    var t := call.states[|call.actions|];
    NothingInHand(t.out, Resident(t));
  }

  lemma ChainCalls(taken: Bytes, ring: Bytes, first: Bytes, arrived: Bytes, pushed: Bytes, out: Bytes, rest: Bytes)
    requires taken + ring == first + arrived && out + rest == ring + pushed
    ensures taken + out + rest == first + (arrived + pushed)
  {
    assert taken + out + rest == taken + (out + rest) == taken + ring + pushed == first + arrived + pushed;
  }

  /** There is such a call for every ring: the loop of the Sigfox driver, left alone, empties it. */
  lemma DrainCallExists(s: State) returns (call: Call)
    requires RingInv(s) && s.pc.Done? && s.start < |s.mem|
    ensures IsCall(s, Drain, call) && After(s, [call]).out == Resident(s) && call.actions != []
  {
    var first := Initial(s.mem, s.start, s.end, Drain);
    InitialInv(s.mem, s.start, s.end, Drain);
    var n := DrainReturns(first);
    var states, actions := RunOn([first], [], Drain, n);
    call := Call(states, actions);
    assert [] + Resident(s) == Resident(s);
    hide Step, Ring;
    assert n > 0;
  }
}
