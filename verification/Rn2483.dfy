/** The receiving side of the LoRa modem driver: its line framer and what the lines do. */
module Rn2483 {
  import opened MachineInts
  import opened ByteQueue
  import opened ByteArrays
  import opened Hex
  import opened LineFraming
  import opened Rings
  import opened Serials
  import opened Texts

  /** "accepted" */
  const ACCEPTED: Bytes := [97, 99, 99, 101, 112, 116, 101, 100]
  /** "denied" */
  const DENIED: Bytes := [100, 101, 110, 105, 101, 100]
  /** "mac_tx_ok" */
  const MAC_TX_OK: Bytes := [109, 97, 99, 95, 116, 120, 95, 111, 107]
  /** "mac_err" */
  const MAC_ERR: Bytes := [109, 97, 99, 95, 101, 114, 114]
  /** "mac_rx 1 " */
  const MAC_RX: Bytes := [109, 97, 99, 95, 114, 120, 32, 49, 32]

  datatype Link = Link(connected: bool, downlink: Bytes)

  /** What a message from the modem changes. A reception carries data behind its nine-byte head if
      the line is longer than eleven bytes. */
  function Handle(l: Link, msg: Bytes): Link {
    if ACCEPTED <= msg then l.(connected := true)
    else if DENIED <= msg then l.(connected := false)
    else if MAC_TX_OK <= msg then l
    else if MAC_ERR <= msg then l.(connected := true)
    else if MAC_RX <= msg then Link(true, if |msg| > 11 then Decode(msg[9..]) else l.downlink)
    else l
  }

  function HandleAll(l: Link, msgs: seq<Bytes>): Link
    decreases |msgs|
  {
    if msgs == [] then l else HandleAll(Handle(l, msgs[0]), msgs[1..])
  }

  class RN2483 {
    const serial: Serial
    const rxBuffer: ByteArray
    var connected: bool
    var pendingDownlink: Bytes

    ghost predicate Valid()
      reads this, serial.rxBuffer, rxBuffer
    {
      serial.Valid() && rxBuffer.Valid() && rxBuffer.memory != serial.rxBuffer.buffer
    }

    ghost function State(): Link
      reads this
    {
      Link(connected, pendingDownlink)
    }

    constructor (serial: Serial)
      requires serial.Valid()
      ensures Valid() && this.serial == serial && fresh(rxBuffer) && fresh(rxBuffer.memory)
      ensures rxBuffer.Contents() == [] && State() == Link(false, [])
    {
      this.serial := serial;
      rxBuffer := new ByteArray();
      connected, pendingDownlink := false, [];
      new;
      rxBuffer.Reserve(32);
    }

    method Update()
      requires Valid()
      modifies this, rxBuffer, rxBuffer.memory, serial.rxBuffer
      ensures Valid() && (fresh(rxBuffer.memory) || rxBuffer.memory == old(rxBuffer.memory))
      ensures var s := old(rxBuffer.Contents()) + old(serial.Pending());
        && State() == HandleAll(old(State()), PatientLines(s))
        && rxBuffer.Contents() == PatientRest(s) && serial.Pending() == []
    {
      Receive();
      ghost var s := rxBuffer.Contents();
      ghost var b, l := s, State();
      hide HandleAll, PatientLines, PatientRest, FirstLF;
      var found := true;
      while found
        invariant Valid() && (fresh(rxBuffer.memory) || rxBuffer.memory == old(rxBuffer.memory))
        invariant serial.Pending() == [] && rxBuffer.Contents() == b && State() == l
        invariant HandleAll(l, PatientLines(b)) == HandleAll(old(State()), PatientLines(s))
        invariant PatientRest(b) == PatientRest(s)
        invariant !found ==> |b| < 2 || FirstLF(b) == |b|
        decreases found, |b|
      {
        ghost var l', b' := l, b;
        found := HandleLine();
        l, b := State(), rxBuffer.Contents();
        if found {
          Handled(l', b', b);
        }
      }
      NothingToHandle(l, b);
    }

    /** The first part of update: takes over what has been received. */
    method Receive()
      requires Valid()
      modifies rxBuffer, rxBuffer.memory, serial.rxBuffer
      ensures Valid() && (fresh(rxBuffer.memory) || rxBuffer.memory == old(rxBuffer.memory))
      ensures rxBuffer.Contents() == old(rxBuffer.Contents()) + old(serial.Pending()) && serial.Pending() == []
    {
      rxBuffer.Reserve(32);
      var available := serial.DataAvailable();
      if available != 0 {
        var _ := serial.ReadAppend(rxBuffer);
      }
    }

    /** One iteration of the loop: acts on the first line of the buffer, if there is one and the
        buffer has at least two bytes. */
    method HandleLine() returns (found: bool)
      requires Valid()
      modifies this, rxBuffer, rxBuffer.memory
      ensures Valid() && (fresh(rxBuffer.memory) || rxBuffer.memory == old(rxBuffer.memory))
      ensures var b := old(rxBuffer.Contents());
        var i := FirstLF(b);
        && found == (2 <= |b| && i < |b|)
        && State() == (if found then Handle(old(State()), b[..i + 1]) else old(State()))
        && rxBuffer.Contents() == if found then b[i + 1..] else b
    {
      var rxAv := rxBuffer.Size();
      if rxAv < 2 {
        return false;
      }
      var idx := 0;
      while idx < rxAv && rxBuffer.memory[idx] != LF
        invariant idx <= rxAv && forall k | 0 <= k < idx :: rxBuffer.Contents()[k] != LF
      {
        idx := idx + 1;
      }
      FoundIsFirst(rxBuffer.Contents(), idx);
      if idx == rxAv {
        return false;
      }
      var msg := rxBuffer.ReverseSplit(idx + 1);
      Dispatch(msg);
      return true;
    }

    method Dispatch(msg: ByteArray)
      requires msg.Valid() && msg != rxBuffer && msg.memory != rxBuffer.memory
      modifies this, msg, msg.memory
      ensures State() == Handle(old(State()), old(msg.Contents()))
    {
      var accepted := msg.StartsWith(ACCEPTED);
      if accepted {
        connected := true;
        return;
      }
      var denied := msg.StartsWith(DENIED);
      if denied {
        connected := false;
        return;
      }
      var txOk := msg.StartsWith(MAC_TX_OK);
      if txOk {
        return;
      }
      var err := msg.StartsWith(MAC_ERR);
      if err {
        connected := true;
        return;
      }
      var rx := msg.StartsWith(MAC_RX);
      if rx {
        connected := true;
        var n := msg.Size();
        if n > 11 {
          var payload := msg.Split(9);
          var data := ByteArray.FromHex(payload);
          pendingDownlink := data.memory[..data.usedSize];
        }
      }
    }
  }

  lemma Handled(l: Link, b: Bytes, tail: Bytes)
    requires 2 <= |b| && FirstLF(b) < |b| && tail == b[FirstLF(b) + 1..]
    ensures HandleAll(Handle(l, b[..FirstLF(b) + 1]), PatientLines(tail)) == HandleAll(l, PatientLines(b))
    ensures PatientRest(tail) == PatientRest(b)
  {
    assert PatientLines(b)[1..] == PatientLines(tail);
  }

  lemma NothingToHandle(l: Link, b: Bytes)
    requires |b| < 2 || FirstLF(b) == |b|
    ensures HandleAll(l, PatientLines(b)) == l && PatientRest(b) == b
  {
  }

  /** The link and the buffer after a series of updates with the given receipts, beginning with the
      given link and buffer. */
  function Session(l: Link, held: Bytes, chunks: seq<Bytes>): (Link, Bytes) {
    if chunks == [] then (l, held) else
      var (link, rest) := Session(l, held, chunks[..|chunks| - 1]);
      var s := rest + chunks[|chunks| - 1];
      (HandleAll(link, PatientLines(s)), PatientRest(s))
  }

  lemma {:induction false} HandleAppend(l: Link, a: seq<Bytes>, b: seq<Bytes>)
    ensures HandleAll(l, a + b) == HandleAll(HandleAll(l, a), b)
    decreases |a|
  {
    if a == [] {
      assert a + b == b;
    } else {
      HandleAppend(Handle(l, a[0]), a[1..], b);
      assert (a + b)[1..] == a[1..] + b;
    }
  }

  /** Handling the lines portion by portion or all together gives the same link. */
  lemma {:induction false} SessionIsFeed(l: Link, held: Bytes, chunks: seq<Bytes>)
    ensures Session(l, held, chunks) == (HandleAll(l, PatientFeed(held, chunks).0), PatientFeed(held, chunks).1)
  {
    if chunks != [] {
      var before, chunk := chunks[..|chunks| - 1], chunks[|chunks| - 1];
      var (lines, rest) := PatientFeed(held, before);
      SessionIsFeed(l, held, before);
      hide PatientLines, PatientRest;
      HandleAppend(l, lines, PatientLines(rest + chunk));
    }
  }

  /** The link depends on the stream only, not on how it was received. */
  lemma SessionIsStream(l: Link, held: Bytes, chunks: seq<Bytes>)
    requires PatientLines(held) == []
    ensures Session(l, held, chunks)
      == (HandleAll(l, PatientLines(held + Concat(chunks))), PatientRest(held + Concat(chunks)))
  {
    SessionIsFeed(l, held, chunks);
    PatientChunksIrrelevant(held, chunks);
  }

  /** Bytes arrive, at most 31 of them are kept, and update takes them. */
  method ReceiveAndUpdate(modem: RN2483, bytes: Bytes)
    requires modem.Valid() && modem.serial.Pending() == []
    modifies modem, modem.rxBuffer, modem.rxBuffer.memory, modem.serial.rxBuffer, modem.serial.rxBuffer.buffer
    ensures modem.Valid() && modem.serial.Pending() == []
    ensures fresh(modem.rxBuffer.memory) || modem.rxBuffer.memory == old(modem.rxBuffer.memory)
    ensures var s := old(modem.rxBuffer.Contents()) + LastN(bytes, RX_BUFFER_SIZE - 1);
      && modem.State() == HandleAll(old(modem.State()), PatientLines(s))
      && modem.rxBuffer.Contents() == PatientRest(s)
  {
    hide HandleAll, PatientLines, PatientRest;
    modem.serial.Receive(bytes);
    NothingBefore(bytes);
    modem.Update();
  }

  /** The driver itself, over any number of updates. */
  method Replay(modem: RN2483, arrivals: seq<Bytes>)
    requires modem.Valid() && modem.serial.Pending() == []
    requires PatientLines(modem.rxBuffer.Contents()) == []
    modifies modem, modem.rxBuffer, modem.rxBuffer.memory, modem.serial.rxBuffer, modem.serial.rxBuffer.buffer
    ensures modem.Valid() && modem.serial.Pending() == []
    ensures PatientLines(modem.rxBuffer.Contents()) == []
    ensures var stream := old(modem.rxBuffer.Contents()) + Concat(Kept(arrivals));
      && modem.State() == HandleAll(old(modem.State()), PatientLines(stream))
      && modem.rxBuffer.Contents() == PatientRest(stream)
  {
    ghost var l, held := modem.State(), modem.rxBuffer.Contents();
    assert PatientRest(held) == held;
    hide HandleAll, PatientLines, PatientRest, Ring;
    for i := 0 to |arrivals|
      invariant modem.Valid() && modem.serial.Pending() == []
      invariant fresh(modem.rxBuffer.memory) || modem.rxBuffer.memory == old(modem.rxBuffer.memory)
      invariant Session(l, held, Kept(arrivals[..i])) == (modem.State(), modem.rxBuffer.Contents())
    {
      ReceiveAndUpdate(modem, arrivals[i]);
      KeptNext(arrivals, i);
    }
    assert arrivals[..|arrivals|] == arrivals;
    SessionIsStream(l, held, Kept(arrivals));
    NoMoreLines(held + Concat(Kept(arrivals)));
  }

  predicate IsFinal(msg: Bytes) {
    || Ascii("accepted") <= msg || Ascii("denied") <= msg || Ascii("mac_err") <= msg || Ascii("mac_rx 1 ") <= msg
  }

  /** The connection flag is the verdict of the last message that has one: it is set unless that
      message is a denial. */
  lemma {:induction false} LastVerdict(l: Link, msgs: seq<Bytes>, k: nat)
    requires k < |msgs| && IsFinal(msgs[k]) && forall i | k < i < |msgs| :: !IsFinal(msgs[i])
    ensures HandleAll(l, msgs).connected <==> !(Ascii("denied") <= msgs[k])
    decreases |msgs|
  {
    Headers();
    var l' := Handle(l, msgs[0]);
    if k > 0 {
      LastVerdict(l', msgs[1..], k - 1);
    } else {
      NoVerdict(l', msgs[1..]);
      Verdict(l, msgs[0]);
    }
  }

  /** Which of two prefixes a message has shows at a byte in which they differ. */
  lemma PrefixByte(prefix: Bytes, msg: Bytes, i: nat)
    requires i < |prefix|
    ensures prefix <= msg ==> i < |msg| && msg[i] == prefix[i]
  {
  }

  lemma Verdict(l: Link, msg: Bytes)
    requires IsFinal(msg)
    ensures Handle(l, msg).connected <==> !(DENIED <= msg)
  {
    Headers();
    PrefixByte(DENIED, msg, 0);
    PrefixByte(ACCEPTED, msg, 0);
    PrefixByte(MAC_ERR, msg, 0);
    PrefixByte(MAC_ERR, msg, 4);
    PrefixByte(MAC_TX_OK, msg, 0);
    PrefixByte(MAC_TX_OK, msg, 4);
    PrefixByte(MAC_RX, msg, 0);
    PrefixByte(MAC_RX, msg, 4);
  }

  lemma {:induction false} NoVerdict(l: Link, msgs: seq<Bytes>)
    requires forall i | 0 <= i < |msgs| :: !IsFinal(msgs[i])
    ensures HandleAll(l, msgs).connected == l.connected
    decreases |msgs|
  {
    Headers();
    if msgs != [] {
      NoVerdict(Handle(l, msgs[0]), msgs[1..]);
    }
  }

  lemma Headers()
    ensures ACCEPTED == Ascii("accepted") && DENIED == Ascii("denied") && MAC_TX_OK == Ascii("mac_tx_ok")
    ensures MAC_ERR == Ascii("mac_err") && MAC_RX == Ascii("mac_rx 1 ")
  {
  }

  /** A message of more than eleven bytes that begins like a reception on port 1. */
  predicate IsDownlink(msg: Bytes) {
    Ascii("mac_rx 1 ") <= msg && |msg| > 11
  }

  /** The pending downlink is what follows the head of the last such message. */
  lemma {:induction false} LastDownlink(l: Link, msgs: seq<Bytes>, k: nat, payload: Bytes)
    requires k < |msgs| && msgs[k] == Ascii("mac_rx 1 ") + payload && |msgs[k]| > 11
    requires forall i | k < i < |msgs| :: !IsDownlink(msgs[i])
    ensures HandleAll(l, msgs).downlink == Decode(payload)
    decreases |msgs|
  {
    hide Decode;
    if k > 0 {
      LastDownlink(Handle(l, msgs[0]), msgs[1..], k - 1, payload);
    } else {
      Received(l, msgs[0], payload);
      NoDownlink(Handle(l, msgs[0]), msgs[1..]);
    }
  }

  lemma Received(l: Link, msg: Bytes, payload: Bytes)
    requires msg == Ascii("mac_rx 1 ") + payload && |msg| > 11
    ensures Handle(l, msg) == Link(true, Decode(payload))
  {
    hide Decode;
    Headers();
    assert msg[9..] == payload && msg[..9] == MAC_RX;
    assert msg[0] == MAC_RX[0] && msg[4] == MAC_RX[4];
    PrefixByte(ACCEPTED, msg, 0);
    PrefixByte(DENIED, msg, 0);
    PrefixByte(MAC_TX_OK, msg, 4);
    PrefixByte(MAC_ERR, msg, 4);
  }

  /** Nothing else changes it. */
  lemma {:induction false} NoDownlink(l: Link, msgs: seq<Bytes>)
    requires forall i | 0 <= i < |msgs| :: !IsDownlink(msgs[i])
    ensures HandleAll(l, msgs).downlink == l.downlink
    decreases |msgs|
  {
    if msgs != [] {
      Headers();
      NoDownlink(Handle(l, msgs[0]), msgs[1..]);
    }
  }
}
