/** The receiving side of the Sigfox modem driver: a line framer with a fixed buffer. */
module AxSigfox {
  import opened MachineInts
  import opened ByteQueue
  import opened ByteArrays
  import opened Hex
  import opened LineFraming
  import opened Rings
  import opened Serials
  import opened Texts

  const MAX_MSG_SIZE: uint16 := 64
  const NETWORK_TIMEOUT: uint32 := 60000

  /** "OK" */
  const OK: Bytes := [79, 75]
  /** "RX=" */
  const RX: Bytes := [82, 88, 61]

  /** The buffer index after n bytes of a line: the buffer starts over after every 64. */
  function IndexAfter(n: nat): (i: uint16)
    ensures i < MAX_MSG_SIZE && (n < MAX_MSG_SIZE ==> i == n) && (MAX_MSG_SIZE <= n ==> i < n)
  {
    n % 64
  }

  /** What is handed on for a line, given without its line feed: the buffer starts over after every
      64 bytes, and a message is what it then holds, if that is more than the carriage return. */
  function MessageOf(line: Bytes): seq<Bytes> {
    var n := IndexAfter(|line|);
    if n > 1 && line[|line| - 1] == CR then [line[|line| - n..|line| - 1]] else []
  }

  /** Lines that do not end in a carriage return are ignored, */
  lemma NoCarriageReturn(line: Bytes)
    requires line == [] || line[|line| - 1] != '\r' as int
    ensures MessageOf(line) == []
  {
  }

  /** as are lines of a carriage return only, */
  lemma BareReturn()
    ensures MessageOf(Ascii("\r")) == []
  {
  }

  /** and 64 bytes at the front of a line are forgotten. */
  lemma StartsOver(front: Bytes, line: Bytes)
    requires |front| == 64
    ensures MessageOf(front + line) == MessageOf(line)
  {
    IndexPeriodic(|line|);
    hide IndexAfter;
    var n := IndexAfter(|line|);
    assert (front + line)[64..] == line;
    if n > 1 {
      assert (front + line)[|front + line| - n..|front + line| - 1] == line[|line| - n..|line| - 1];
    }
  }

  lemma IndexPeriodic(n: nat)
    ensures IndexAfter(64 + n) == IndexAfter(n)
  {
  }

  function HeldMessage(held: Bytes): seq<Bytes> {
    if |held| > 1 && held[|held| - 1] == CR then [held[..|held| - 1]] else []
  }

  function WithoutLF(line: Bytes): Bytes {
    if line == [] then [] else line[..|line| - 1]
  }

  /** The messages of lines that still have their line feeds. */
  function MessagesOf(lines: seq<Bytes>): seq<Bytes> {
    if lines == [] then [] else MessageOf(WithoutLF(lines[0])) + MessagesOf(lines[1..])
  }

  function StreamMessages(s: Bytes): seq<Bytes> {
    MessagesOf(Lines(s))
  }

  /** A payload and its carriage return arrive intact if and only if they fit in the buffer with a
      byte to spare and there is a payload at all. */
  lemma PayloadIntactIff(payload: Bytes)
    ensures MessageOf(payload + [CR]) == [payload] <==> 1 <= |payload| <= 62
  {
    var line := payload + [CR];
    if 1 <= |payload| <= 62 {
      assert line[..|line| - 1] == payload;
    } else if MessageOf(line) != [] {
      assert |MessageOf(line)[0]| == IndexAfter(|line|) - 1;
    }
  }

  /** The same for a payload in the stream. */
  lemma SentPayloadIntactIff(payload: Bytes)
    requires '\n' as int !in payload
    ensures StreamMessages(payload + Ascii("\r\n")) == [payload] <==> 1 <= |payload| <= 62
  {
    var line := payload + [CR];
    assert Ascii("\r\n") == [CR, LF] && payload + [CR, LF] == line + [LF];
    PayloadIntactIff(payload);
    OneLine(line);
  }

  lemma SentWithoutReturn(line: Bytes)
    requires '\n' as int !in line && (line == [] || line[|line| - 1] != '\r' as int)
    ensures StreamMessages(line + Ascii("\n")) == []
  {
    assert Ascii("\n") == [LF];
    NoCarriageReturn(line);
    OneLine(line);
  }

  /** The messages of a stream of one line are those of the line. */
  lemma OneLine(line: Bytes)
    requires LF !in line
    ensures StreamMessages(line + [LF]) == MessageOf(line)
  {
    var s := line + [LF];
    assert s[..|line|] == line && s + [] == s;
    assert WithoutLF(s) == line && StreamMessages([]) == [];
    hide MessageOf, StreamMessages, WithoutLF;
    FirstMessage(s, []);
    assert MessageOf(line) + [] == MessageOf(line);
  }

  datatype Modem = Modem(messagePending: bool, rxData: Bytes)

  function Process(m: Modem, msg: Bytes): Modem {
    if OK <= msg then m.(messagePending := false)
    else if RX <= msg then m.(rxData := Decode(msg[3..]))
    else m
  }

  function ProcessAll(m: Modem, msgs: seq<Bytes>): Modem
    decreases |msgs|
  {
    if msgs == [] then m else ProcessAll(Process(m, msgs[0]), msgs[1..])
  }

  /** A pending message stays pending unless one of the messages from the modem begins with OK. */
  lemma {:induction false} PendingIff(m: Modem, msgs: seq<Bytes>)
    ensures ProcessAll(m, msgs).messagePending <==>
      m.messagePending && forall i | 0 <= i < |msgs| :: !(Ascii("OK") <= msgs[i])
    decreases |msgs|
  {
    Headers();
    if msgs != [] {
      PendingIff(Process(m, msgs[0]), msgs[1..]);
      assert forall i | 1 <= i < |msgs| :: msgs[i] == msgs[1..][i - 1];
    }
  }

  /** The data are those behind the head of the last message that begins with RX=. */
  lemma {:induction false} LastReception(m: Modem, msgs: seq<Bytes>, k: nat, payload: Bytes)
    requires k < |msgs| && msgs[k] == Ascii("RX=") + payload
    requires forall i | k < i < |msgs| :: !(Ascii("RX=") <= msgs[i])
    ensures ProcessAll(m, msgs).rxData == Decode(payload)
    decreases |msgs|
  {
    Headers();
    hide Decode;
    if k > 0 {
      LastReception(Process(m, msgs[0]), msgs[1..], k - 1, payload);
    } else {
      assert msgs[0][3..] == payload && msgs[0][0] == Ascii("RX=")[0];
      NoReception(Process(m, msgs[0]), msgs[1..]);
    }
  }

  lemma {:induction false} NoReception(m: Modem, msgs: seq<Bytes>)
    requires forall i | 0 <= i < |msgs| :: !(Ascii("RX=") <= msgs[i])
    ensures ProcessAll(m, msgs).rxData == m.rxData
    decreases |msgs|
  {
    Headers();
    if msgs != [] {
      NoReception(Process(m, msgs[0]), msgs[1..]);
    }
  }

  lemma Headers()
    ensures OK == Ascii("OK") && RX == Ascii("RX=")
  {
  }

  predicate AnyReception(msgs: seq<Bytes>) {
    exists i | 0 <= i < |msgs| :: RX <= msgs[i]
  }

  /** What the byte c does to a line, and which messages it completes. */
  function LineAfter(line: Bytes, c: uint8): Bytes {
    if c == LF then [] else line + [c]
  }

  function Emitted(line: Bytes, c: uint8): seq<Bytes> {
    if c == LF then MessageOf(line) else []
  }

  /** The messages completed by the bytes of s, and the line left, taking one byte at a time. */
  function Taken(line: Bytes, s: Bytes): seq<Bytes>
    decreases |s|
  {
    if s == [] then [] else Emitted(line, s[0]) + Taken(LineAfter(line, s[0]), s[1..])
  }

  function LineLeft(line: Bytes, s: Bytes): Bytes
    decreases |s|
  {
    if s == [] then line else LineLeft(LineAfter(line, s[0]), s[1..])
  }

  lemma TakenStep(line: Bytes, s: Bytes)
    requires s != []
    ensures Taken(line, s) == Emitted(line, s[0]) + Taken(LineAfter(line, s[0]), s[1..])
    ensures LineLeft(line, s) == LineLeft(LineAfter(line, s[0]), s[1..])
  {
  }

  lemma NothingTaken(line: Bytes, msgs: seq<Bytes>)
    ensures msgs + Taken(line, []) == msgs && LineLeft(line, []) == line
  {
  }

  /** That is the same as cutting the stream into lines and looking at each line by itself. */
  lemma {:induction false} TakenIsStream(line: Bytes, s: Bytes)
    requires LF !in line
    ensures Taken(line, s) == StreamMessages(line + s) && LineLeft(line, s) == Residue(line + s)
    decreases |s|
  {
    if s == [] {
      NothingLeft(line);
    } else {
      StreamStep(line, s);
      TakenIsStream(LineAfter(line, s[0]), s[1..]);
    }
  }

  lemma StreamStep(line: Bytes, s: Bytes)
    requires LF !in line && s != []
    ensures StreamMessages(line + s) == Emitted(line, s[0]) + StreamMessages(LineAfter(line, s[0]) + s[1..])
    ensures Residue(line + s) == Residue(LineAfter(line, s[0]) + s[1..])
  {
    var head := line + [s[0]];
    assert line + s == head + s[1..];
    if s[0] == LF {
      assert WithoutLF(head) == line;
      assert head[..|head| - 1] == line;
      FirstLine(head, s[1..]);
      assert [] + s[1..] == s[1..];
      FirstMessage(head, s[1..]);
    }
  }

  lemma FirstMessage(head: Bytes, tail: Bytes)
    requires IsLine(head)
    ensures StreamMessages(head + tail) == MessageOf(WithoutLF(head)) + StreamMessages(tail)
  {
    FirstLine(head, tail);
    assert Lines(head + tail)[1..] == Lines(tail);
  }

  lemma Regroup(a: seq<Bytes>, b: seq<Bytes>, c: seq<Bytes>, total: seq<Bytes>)
    requires a + (b + c) == total
    ensures a + b + c == total
  {
  }

  lemma {:induction false} ProcessAppend(m: Modem, a: seq<Bytes>, b: seq<Bytes>)
    ensures ProcessAll(m, a + b) == ProcessAll(ProcessAll(m, a), b)
    decreases |a|
  {
    if a == [] {
      assert a + b == b;
    } else {
      ProcessAppend(Process(m, a[0]), a[1..], b);
      assert (a + b)[1..] == a[1..] + b;
    }
  }

  lemma ReceptionIff(msgs: seq<Bytes>)
    ensures AnyReception(msgs) <==> exists i | 0 <= i < |msgs| :: Ascii("RX=") <= msgs[i]
  {
    Headers();
  }

  lemma ReceptionAppend(a: seq<Bytes>, b: seq<Bytes>)
    ensures AnyReception(a + b) <==> AnyReception(a) || AnyReception(b)
  {
    if i :| 0 <= i < |a| && RX <= a[i] {
      assert (a + b)[i] == a[i];
    }
    if i :| 0 <= i < |b| && RX <= b[i] {
      assert (a + b)[|a| + i] == b[i];
    }
  }

  class AXSigfox {
    const serial: Serial
    const buffer: array<uint8>
    var idx: uint16
    var rxData: Bytes
    var messagePending: bool
    var messageTimestamp: uint32
    /** The bytes received since the last line feed, and the messages handed on so far. */
    ghost var line: Bytes
    ghost var messages: seq<Bytes>

    /** The buffer holds the end of the line, as much of it as came after the last restart. */
    ghost predicate Valid()
      reads this, serial.rxBuffer, buffer
    {
      Intact() && LF !in line && idx == IndexAfter(|line|) && buffer[..idx] == line[|line| - idx..]
    }

    ghost predicate Intact()
      reads this, serial.rxBuffer
    {
      serial.Valid() && buffer != serial.rxBuffer.buffer && buffer.Length == MAX_MSG_SIZE && idx < MAX_MSG_SIZE
    }

    ghost function State(): Modem
      reads this
    {
      Modem(messagePending, rxData)
    }

    ghost function Abstraction(): Driver
      reads this
    {
      Driver(line, messages, State())
    }

    constructor (serial: Serial)
      requires serial.Valid()
      ensures Valid() && this.serial == serial && fresh(buffer) && line == [] && messages == []
      ensures State() == Modem(false, [])
    {
      this.serial := serial;
      buffer := new uint8[MAX_MSG_SIZE](_ => 0);
      idx, rxData, messagePending, messageTimestamp := 0, [], false, 0;
      line, messages := [], [];
    }

    /** Reads everything that has been received; the result tells whether downlink data came. */
    method Update(now: uint32) returns (r: bool)
      requires Valid()
      modifies this, buffer, serial.rxBuffer
      ensures Valid() && serial.Pending() == [] && messageTimestamp == old(messageTimestamp)
      ensures var s := old(line) + old(serial.Pending());
        var timedOut := TimedOut(messageTimestamp, now);
        && line == Residue(s)
        && messages == old(messages) + StreamMessages(s)
        && State() == ProcessAll(Expire(old(State()), timedOut), StreamMessages(s))
        && (r <==> AnyReception(StreamMessages(s)))
    {
      hide ProcessAll, StreamMessages, Residue, Taken, LineLeft, AnyReception, Ring, IndexAfter;
      if messagePending && ToUInt32(now - messageTimestamp) > NETWORK_TIMEOUT {
        messagePending := false;
      }
      r := Drain();
      TakenIsStream(old(line), old(serial.Pending()));
    }

    /** The loop of update. */
    method Drain() returns (r: bool)
      requires Valid()
      modifies this, buffer, serial.rxBuffer
      ensures Valid() && serial.Pending() == [] && messageTimestamp == old(messageTimestamp)
      ensures line == LineLeft(old(line), old(serial.Pending()))
      ensures messages == old(messages) + Taken(old(line), old(serial.Pending()))
      ensures State() == ProcessAll(old(State()), Taken(old(line), old(serial.Pending())))
      ensures r <==> AnyReception(Taken(old(line), old(serial.Pending())))
    {
      hide Ring, IndexAfter, MessageOf, ProcessAll, AnyReception, Taken, LineLeft, Emitted, LineAfter;
      r := false;
      NoMessage(State());
      ghost var all := Taken(line, serial.Pending());
      ghost var msgs: seq<Bytes> := [];
      var available := serial.DataAvailable();
      while available != 0
        invariant Valid() && available == |serial.Pending()| && messageTimestamp == old(messageTimestamp)
        invariant LineLeft(line, serial.Pending()) == LineLeft(old(line), old(serial.Pending()))
        invariant messages == old(messages) + msgs && msgs + Taken(line, serial.Pending()) == all
        invariant State() == ProcessAll(old(State()), msgs) && (r <==> AnyReception(msgs))
        decreases |serial.Pending()|
      {
        ghost var emitted := Emitted(line, serial.Pending()[0]);
        TakenStep(line, serial.Pending());
        ProcessAppend(old(State()), msgs, emitted);
        ReceptionAppend(msgs, emitted);
        var received := ReceiveByte();
        r := r || received;
        Regroup(msgs, emitted, Taken(line, serial.Pending()), all);
        msgs := msgs + emitted;
        available := serial.DataAvailable();
      }
      NothingTaken(line, msgs);
    }

    /** One iteration of the loop. */
    method ReceiveByte() returns (r: bool)
      requires Valid() && serial.Pending() != []
      modifies this, buffer, serial.rxBuffer
      ensures Valid() && serial.Pending() == old(serial.Pending())[1..] && messageTimestamp == old(messageTimestamp)
      ensures var c := old(serial.Pending())[0];
        && line == LineAfter(old(line), c)
        && messages == old(messages) + Emitted(old(line), c)
        && State() == ProcessAll(old(State()), Emitted(old(line), c))
        && (r <==> AnyReception(Emitted(old(line), c)))
    {
      hide Ring, IndexAfter, MessageOf, ProcessAll, AnyReception;
      NoMessage(State());
      var cell := new uint8[1](_ => 0);
      var _ := serial.ReadInto(cell, 1);
      var c := cell[0];
      assert c == cell[..1][0];
      r := false;

      if c == LF {
        r := EndLine();
        return;
      }

      AppendToLine(line, c, buffer[..idx]);
      buffer[idx] := c;
      idx := idx + 1;
      line := line + [c];
      if idx == MAX_MSG_SIZE {
        idx := 0;
      }
    }

    /** The branch for a line feed. */
    method EndLine() returns (r: bool)
      requires Valid()
      modifies this, buffer
      ensures Valid() && messageTimestamp == old(messageTimestamp)
      ensures line == [] && messages == old(messages) + MessageOf(old(line))
      ensures State() == ProcessAll(old(State()), MessageOf(old(line)))
      ensures r <==> AnyReception(MessageOf(old(line)))
    {
      hide ProcessAll, AnyReception, MessageOf, Process, Ring, IndexAfter;
      EndOfLine(line, buffer[..idx]);
      r := HandOn();
      Restart();
    }

    /** What the buffer holds at the end of a line, without its carriage return. */
    ghost function Held(): seq<Bytes>
      reads this, buffer
      requires idx <= buffer.Length
    {
      HeldMessage(buffer[..idx])
    }

    method HandOn() returns (r: bool)
      requires Intact()
      modifies `messagePending, `rxData, `messages, buffer
      ensures Intact() && messages == old(messages) + old(Held())
      ensures State() == ProcessAll(old(State()), old(Held())) && (r <==> AnyReception(old(Held())))
    {
      hide ProcessAll, AnyReception, Process, Ring, IndexAfter;
      r := false;
      NoMessage(State());
      if idx > 1 && buffer[idx - 1] == CR {
        ghost var msg := buffer[..idx][..idx - 1];
        OneMessage(State(), msg);
        buffer[idx - 1] := 0;
        assert buffer[..idx - 1] == msg;
        r := ProcessMessage(idx - 1);
        messages := messages + [msg];
      } else {
        messages := messages + [];
      }
    }

    method Restart()
      requires Intact()
      modifies `idx, `line
      ensures Valid() && line == []
    {
      hide Ring, IndexAfter;
      idx := 0;
      line := [];
    }

    method ProcessMessage(n: uint16) returns (r: bool)
      requires n <= buffer.Length
      modifies `messagePending, `rxData
      ensures State() == Process(old(State()), buffer[..n])
      ensures r <==> RX <= buffer[..n]
    {
      var msg := new ByteArray.FromBuffer(buffer[..n]);
      assert OK <= buffer[..n] ==> buffer[..n][0] == OK[0];
      assert RX <= buffer[..n] ==> buffer[..n][0] == RX[0];
      r := false;
      var ok := msg.StartsWith(OK);
      if ok {
        if messagePending {
          messagePending := false;
        }
        return;
      }
      var rx := msg.StartsWith(RX);
      if rx {
        var payload := msg.Split(3);
        var data := ByteArray.FromHex(payload);
        rxData := data.memory[..data.usedSize];
        r := true;
      }
    }
  }

  /** A byte more on the line is a byte more in the buffer, which starts over when it is full. */
  lemma AppendToLine(line: Bytes, c: uint8, held: Bytes)
    requires |held| == IndexAfter(|line|) && held == line[|line| - |held|..]
    ensures |held| + 1 < MAX_MSG_SIZE ==> IndexAfter(|line + [c]|) == |held| + 1
    ensures |held| + 1 == MAX_MSG_SIZE ==> IndexAfter(|line + [c]|) == 0
    ensures held + [c] == (line + [c])[|line| - |held|..]
  {
  }

  /** The message in the buffer is the message of the line. */
  lemma EndOfLine(line: Bytes, held: Bytes)
    requires |held| == IndexAfter(|line|) && held == line[|line| - |held|..]
    ensures MessageOf(line) == HeldMessage(held)
  {
    if |held| > 1 {
      assert held[|held| - 1] == line[|line| - 1];
      assert held[..|held| - 1] == line[|line| - |held|..|line| - 1];
    }
  }

  lemma OneMessage(m: Modem, msg: Bytes)
    ensures ProcessAll(m, [msg]) == Process(m, msg)
    ensures AnyReception([msg]) <==> RX <= msg
  {
    if RX <= msg {
      assert RX <= [msg][0];
    }
  }

  lemma NoMessage(m: Modem)
    ensures ProcessAll(m, []) == m && !AnyReception([])
  {
  }

  lemma NothingLeft(line: Bytes)
    requires LF !in line
    ensures StreamMessages(line + []) == [] && Residue(line + []) == line
  {
    assert line + [] == line;
    NoLineFeed(line);
  }

  lemma {:induction false} MessagesAppend(a: seq<Bytes>, b: seq<Bytes>)
    ensures MessagesOf(a + b) == MessagesOf(a) + MessagesOf(b)
  {
    hide MessageOf, WithoutLF;
    if a == [] {
      assert a + b == b;
    } else {
      MessagesAppend(a[1..], b);
      assert (a + b)[1..] == a[1..] + b;
      Regroup(MessageOf(WithoutLF(a[0])), MessagesOf(a[1..]), MessagesOf(b), MessagesOf(a + b));
    }
  }

  /** What one update receives, and when it runs. */
  datatype Receipt = Receipt(bytes: Bytes, now: uint32)

  /** The driver between updates. */
  datatype Driver = Driver(line: Bytes, messages: seq<Bytes>, modem: Modem)

  predicate TimedOut(sent: uint32, now: uint32) {
    ToUInt32(now - sent) > NETWORK_TIMEOUT
  }

  /** A frame is given up when more than a minute has passed since it was sent. */
  lemma TimedOutIff(sent: uint32, elapsed: uint32)
    ensures TimedOut(sent, ToUInt32(sent + elapsed)) <==> elapsed > 60000
  {
    var now := ToUInt32(sent + elapsed);
    if now == sent + elapsed {
      WrapSmall(now - sent);
    } else {
      DivModUnique(now - sent, 0x1_0000_0000, -1, elapsed);
    }
  }

  function Expire(m: Modem, expired: bool): Modem {
    if expired then m.(messagePending := false) else m
  }

  /** A series of updates, beginning with the given driver, whose last frame was sent at sent. */
  function Session(d: Driver, sent: uint32, receipts: seq<Receipt>): Driver {
    if receipts == [] then d else
      var d' := Session(d, sent, receipts[..|receipts| - 1]);
      var r := receipts[|receipts| - 1];
      var s := d'.line + r.bytes;
      Driver(Residue(s), d'.messages + StreamMessages(s),
             ProcessAll(Expire(d'.modem, TimedOut(sent, r.now)), StreamMessages(s)))
  }

  function Stream(receipts: seq<Receipt>): Bytes {
    if receipts == [] then [] else Stream(receipts[..|receipts| - 1]) + receipts[|receipts| - 1].bytes
  }

  predicate EverTimedOut(sent: uint32, receipts: seq<Receipt>) {
    exists i | 0 <= i < |receipts| :: TimedOut(sent, receipts[i].now)
  }

  /** Giving up waiting and processing messages may be done in either order. */
  lemma {:induction false} ExpireFirst(m: Modem, expired: bool, msgs: seq<Bytes>)
    ensures ProcessAll(Expire(m, expired), msgs) == Expire(ProcessAll(m, msgs), expired)
    decreases |msgs|
  {
    if msgs != [] {
      assert Process(Expire(m, expired), msgs[0]) == Expire(Process(m, msgs[0]), expired);
      ExpireFirst(Process(m, msgs[0]), expired, msgs[1..]);
    }
  }

  /** Messages, unfinished line and modem state depend on the stream only, not on how it was split
      over updates, and on whether any of them came after the timeout. */
  lemma {:induction false} SessionIsStream(d: Driver, sent: uint32, receipts: seq<Receipt>)
    requires LF !in d.line
    ensures var s := d.line + Stream(receipts);
      Session(d, sent, receipts) == Driver(Residue(s), d.messages + StreamMessages(s),
        ProcessAll(Expire(d.modem, EverTimedOut(sent, receipts)), StreamMessages(s)))
  {
    if receipts == [] {
      NothingLeft(d.line);
      NoMessage(d.modem);
      assert d.messages + [] == d.messages;
    } else {
      var n := |receipts| - 1;
      SessionIsStream(d, sent, receipts[..n]);
      LastReceipt(sent, receipts);
      NextUpdate(d, Session(d, sent, receipts[..n]), d.line + Stream(receipts[..n]), receipts[n].bytes,
                 EverTimedOut(sent, receipts[..n]), TimedOut(sent, receipts[n].now));
      Assoc(d.line, Stream(receipts[..n]), receipts[n].bytes);
    }
  }

  /** After a session a message is pending if it was before, no update came after the timeout and no
      message of the stream begins with OK. */
  lemma SessionPendingIff(d: Driver, sent: uint32, receipts: seq<Receipt>)
    requires LF !in d.line
    ensures var msgs := StreamMessages(d.line + Stream(receipts));
      Session(d, sent, receipts).modem.messagePending <==>
        && d.modem.messagePending && (forall i | 0 <= i < |receipts| :: !TimedOut(sent, receipts[i].now))
        && forall i | 0 <= i < |msgs| :: !(Ascii("OK") <= msgs[i])
  {
    var msgs := StreamMessages(d.line + Stream(receipts));
    SessionIsStream(d, sent, receipts);
    PendingIff(Expire(d.modem, EverTimedOut(sent, receipts)), msgs);
  }

  lemma LastReceipt(sent: uint32, receipts: seq<Receipt>)
    requires receipts != []
    ensures var n := |receipts| - 1;
      EverTimedOut(sent, receipts) <==> EverTimedOut(sent, receipts[..n]) || TimedOut(sent, receipts[n].now)
  {
    var n := |receipts| - 1;
    if i :| 0 <= i <= n && TimedOut(sent, receipts[i].now) {
      assert i < n ==> TimedOut(sent, receipts[..n][i].now);
    }
    if i :| 0 <= i < n && TimedOut(sent, receipts[..n][i].now) {
      assert TimedOut(sent, receipts[i].now);
    }
  }

  lemma NextUpdate(d: Driver, d': Driver, s: Bytes, bytes: Bytes, before: bool, last: bool)
    requires d' == Driver(Residue(s), d.messages + StreamMessages(s),
                          ProcessAll(Expire(d.modem, before), StreamMessages(s)))
    ensures var t := Residue(s) + bytes;
      && Residue(t) == Residue(s + bytes)
      && d'.messages + StreamMessages(t) == d.messages + StreamMessages(s + bytes)
      && ProcessAll(Expire(d'.modem, last), StreamMessages(t))
         == ProcessAll(Expire(d.modem, before || last), StreamMessages(s + bytes))
  {
    hide ProcessAll, Residue, Lines, MessagesOf;
    var t := Residue(s) + bytes;
    LinesSplit(s, bytes);
    MessagesAppend(Lines(s), Lines(t));
    ExpireFirst(Expire(d.modem, before), last, StreamMessages(s));
    ProcessAppend(Expire(d.modem, before || last), StreamMessages(s), StreamMessages(t));
    assert d.messages + StreamMessages(s) + StreamMessages(t) == d.messages + (StreamMessages(s) + StreamMessages(t));
  }

  /** What the driver gets to see of the bytes that arrive before each update. */
  function Seen(arrivals: seq<Receipt>): (receipts: seq<Receipt>)
    ensures |receipts| == |arrivals|
  {
    seq(|arrivals|, i requires 0 <= i < |arrivals| =>
      Receipt(LastN(arrivals[i].bytes, RX_BUFFER_SIZE - 1), arrivals[i].now))
  }

  lemma SeenNext(arrivals: seq<Receipt>, i: nat)
    requires i < |arrivals|
    ensures var receipts := Seen(arrivals[..i + 1]);
      && receipts[i] == Receipt(LastN(arrivals[i].bytes, RX_BUFFER_SIZE - 1), arrivals[i].now)
      && receipts[..i] == Seen(arrivals[..i])
  {
  }

  /** Bytes arrive, at most 31 of them are kept, and update takes them. */
  method ReceiveAndUpdate(modem: AXSigfox, r: Receipt)
    requires modem.Valid() && modem.serial.Pending() == []
    modifies modem, modem.buffer, modem.serial.rxBuffer, modem.serial.rxBuffer.buffer
    ensures modem.Valid() && modem.serial.Pending() == [] && modem.messageTimestamp == old(modem.messageTimestamp)
    ensures var s := old(modem.line) + LastN(r.bytes, RX_BUFFER_SIZE - 1);
      modem.Abstraction() == Driver(Residue(s), old(modem.messages) + StreamMessages(s),
        ProcessAll(Expire(old(modem.State()), TimedOut(modem.messageTimestamp, r.now)), StreamMessages(s)))
  {
    hide StreamMessages, ProcessAll, Residue;
    modem.serial.Receive(r.bytes);
    NothingBefore(r.bytes);
    var _ := modem.Update(r.now);
  }

  /** The driver itself, over any number of updates. */
  method Replay(modem: AXSigfox, arrivals: seq<Receipt>)
    requires modem.Valid() && modem.serial.Pending() == []
    modifies modem, modem.buffer, modem.serial.rxBuffer, modem.serial.rxBuffer.buffer
    ensures modem.Valid() && modem.serial.Pending() == []
    ensures var s, expired := old(modem.line) + Stream(Seen(arrivals)),
                              EverTimedOut(old(modem.messageTimestamp), Seen(arrivals));
      modem.Abstraction() == Driver(Residue(s), old(modem.messages) + StreamMessages(s),
        ProcessAll(Expire(old(modem.State()), expired), StreamMessages(s)))
  {
    ghost var d, sent := modem.Abstraction(), modem.messageTimestamp;
    hide StreamMessages, ProcessAll, Residue, Ring;
    for i := 0 to |arrivals|
      invariant modem.Valid() && modem.serial.Pending() == [] && modem.messageTimestamp == sent
      invariant modem.Abstraction() == Session(d, sent, Seen(arrivals[..i]))
    {
      ReceiveAndUpdate(modem, arrivals[i]);
      SeenNext(arrivals, i);
    }
    assert arrivals[..|arrivals|] == arrivals;
    SessionIsStream(d, sent, Seen(arrivals));
  }
}
