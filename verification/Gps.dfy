/** The receiving side of the GPS driver: its line framer. */
module Gps {
  import opened MachineInts
  import opened ByteQueue
  import opened ByteArrays
  import opened LineFraming
  import opened Rings
  import opened Serials
  import opened Texts

  /** "$GPGGA", "$GPRMC" and "$GPVTG" */
  const GGA: Bytes := [36, 71, 80, 71, 71, 65]
  const RMC: Bytes := [36, 71, 80, 82, 77, 67]
  const VTG: Bytes := [36, 71, 80, 86, 84, 71]

  /** A line with the zero byte appended to it, and the parser it goes to. */
  datatype Sentence = Gga(text: Bytes) | Rmc(text: Bytes) | Vtg(text: Bytes) | Other(text: Bytes)

  function Classify(line: Bytes): Sentence {
    var text := line + [0];
    if GGA <= text then Gga(text) else if RMC <= text then Rmc(text) else if VTG <= text then Vtg(text) else Other(text)
  }

  /** Which parser a line goes to, with a zero byte behind it. */
  lemma ClassifyHeads(line: Bytes)
    ensures Ascii("$GPGGA") <= line <==> Classify(line) == Gga(line + [0])
    ensures Ascii("$GPRMC") <= line <==> Classify(line) == Rmc(line + [0])
    ensures Ascii("$GPVTG") <= line <==> Classify(line) == Vtg(line + [0])
    ensures !(Ascii("$GPGGA") <= line || Ascii("$GPRMC") <= line || Ascii("$GPVTG") <= line) <==>
      Classify(line) == Other(line + [0])
  {
    HeadOfText(GGA, line);
    HeadOfText(RMC, line);
    HeadOfText(VTG, line);
    assert GGA == Ascii("$GPGGA") && RMC == Ascii("$GPRMC") && VTG == Ascii("$GPVTG");
    OnlyOneHead(line + [0]);
    hide GGA, RMC, VTG, Ascii;
  }

  lemma OnlyOneHead(text: Bytes)
    ensures !(GGA <= text && RMC <= text) && !(GGA <= text && VTG <= text) && !(RMC <= text && VTG <= text)
  {
    assert GGA <= text ==> text[3] == 71 && text[4] == 71;
    assert RMC <= text ==> text[3] == 82;
    assert VTG <= text ==> text[3] == 86;
  }

  lemma HeadOfText(head: Bytes, line: Bytes)
    requires head != [] && head[|head| - 1] != 0
    ensures head <= line + [0] <==> head <= line
  {
    if head <= line + [0] {
      assert |head| <= |line|;
    }
  }

  function ClassifyAll(lines: seq<Bytes>): seq<Sentence> {
    if lines == [] then [] else [Classify(lines[0])] + ClassifyAll(lines[1..])
  }

  class GPS {
    const serial: Serial
    const buffer: ByteArray
    /** The sentences handed to the parsers so far. */
    var handled: seq<Sentence>

    /** Between updates the buffer holds no complete line. */
    ghost predicate Valid()
      reads this, serial.rxBuffer, buffer, buffer.memory
    {
      Intact() && LF !in buffer.Contents()
    }

    ghost predicate Intact()
      reads this, serial.rxBuffer, buffer
    {
      serial.Valid() && buffer.Valid() && buffer.memory != serial.rxBuffer.buffer
    }

    constructor (serial: Serial)
      requires serial.Valid()
      ensures Valid() && this.serial == serial && fresh(buffer) && fresh(buffer.memory)
      ensures buffer.Contents() == [] && handled == []
    {
      this.serial := serial;
      buffer := new ByteArray();
      handled := [];
    }

    /** Takes over what has been received and hands on every complete line. */
    method UpdateRx()
      requires Valid()
      modifies this, buffer, buffer.memory, serial.rxBuffer
      ensures Valid() && (fresh(buffer.memory) || buffer.memory == old(buffer.memory))
      ensures var s := old(buffer.Contents()) + old(serial.Pending());
        handled == old(handled) + ClassifyAll(Lines(s)) && buffer.Contents() == Residue(s) && serial.Pending() == []
    {
      NoLineFeed(buffer.Contents());
      var available := serial.DataAvailable();
      if available == 0 {
        assert buffer.Contents() + serial.Pending() == buffer.Contents();
        return;
      }
      var _ := serial.ReadAppend(buffer);
      assert buffer.Contents() == old(buffer.Contents()) + old(serial.Pending());
      HandleLines();
    }

    /** The loop of updateRx. */
    method HandleLines()
      requires Intact()
      modifies this, buffer, buffer.memory
      ensures Valid() && (fresh(buffer.memory) || buffer.memory == old(buffer.memory))
      ensures handled == old(handled) + ClassifyAll(Lines(old(buffer.Contents())))
      ensures buffer.Contents() == Residue(old(buffer.Contents()))
    {
      ghost var b, h := buffer.Contents(), handled;
      ghost var all, rest := handled + ClassifyAll(Lines(b)), Residue(b);
      hide ClassifyAll, Lines, Residue, FirstLF, Classify, Ring;
      var found := true;
      while found
        invariant Intact() && (fresh(buffer.memory) || buffer.memory == old(buffer.memory))
        invariant buffer.Contents() == b && handled == h
        invariant h + ClassifyAll(Lines(b)) == all && Residue(b) == rest
        invariant !found ==> FirstLF(b) == |b|
        decreases found, |b|
      {
        ghost var h', b' := h, b;
        found := HandleLine();
        h, b := handled, buffer.Contents();
        if found {
          Handled(h', b', b);
        }
      }
      NothingToHandle(h, b);
    }

    /** One iteration of the loop: hands on the first line of the buffer, if there is one. */
    method HandleLine() returns (found: bool)
      requires Intact()
      modifies this, buffer, buffer.memory
      ensures Intact() && (fresh(buffer.memory) || buffer.memory == old(buffer.memory))
      ensures var b := old(buffer.Contents());
        var i := FirstLF(b);
        && found == (i < |b|)
        && handled == (if found then old(handled) + [Classify(b[..i + 1])] else old(handled))
        && buffer.Contents() == if found then b[i + 1..] else b
    {
      var index := buffer.Find(LF);
      FoundIsFirst(buffer.Contents(), index);
      if index == buffer.usedSize {
        return false;
      }
      var line := buffer.ReverseSplit(index + 1);
      ghost var head := line.Contents();
      var _ := line.Append(0);
      assert line.Contents()[..|line.Contents()| - 1] == head;
      var sentence := Dispatch(line);
      handled := handled + [sentence];
      return true;
    }

    method Dispatch(line: ByteArray) returns (sentence: Sentence)
      requires line.Valid() && line.Contents() != [] && line.Contents()[|line.Contents()| - 1] == 0
      ensures sentence == Classify(line.Contents()[..|line.Contents()| - 1])
    {
      ghost var text := line.Contents();
      assert text[..|text| - 1] + [0] == text;
      var bytes := line.memory[..line.usedSize];
      var gga := line.StartsWith(GGA);
      if gga {
        return Gga(bytes);
      }
      var rmc := line.StartsWith(RMC);
      if rmc {
        return Rmc(bytes);
      }
      var vtg := line.StartsWith(VTG);
      if vtg {
        return Vtg(bytes);
      }
      return Other(bytes);
    }
  }

  lemma Handled(handled: seq<Sentence>, b: Bytes, tail: Bytes)
    requires FirstLF(b) < |b| && tail == b[FirstLF(b) + 1..]
    ensures handled + [Classify(b[..FirstLF(b) + 1])] + ClassifyAll(Lines(tail)) == handled + ClassifyAll(Lines(b))
    ensures Residue(tail) == Residue(b)
  {
    assert Lines(b)[1..] == Lines(tail);
    Regroup(handled, Classify(b[..FirstLF(b) + 1]), ClassifyAll(Lines(tail)));
  }

  lemma Regroup(a: seq<Sentence>, x: Sentence, b: seq<Sentence>)
    ensures a + [x] + b == a + ([x] + b)
  {
  }

  lemma NothingToHandle(handled: seq<Sentence>, b: Bytes)
    requires FirstLF(b) == |b|
    ensures handled + ClassifyAll(Lines(b)) == handled && Residue(b) == b && LF !in b
  {
    NoLine(b);
  }

  /** The sentences handled and the buffer left after a series of updates with the given receipts,
      beginning with the given ones. */
  function Session(handled: seq<Sentence>, held: Bytes, chunks: seq<Bytes>): (seq<Sentence>, Bytes) {
    if chunks == [] then (handled, held) else
      var (sentences, rest) := Session(handled, held, chunks[..|chunks| - 1]);
      var s := rest + chunks[|chunks| - 1];
      (sentences + ClassifyAll(Lines(s)), Residue(s))
  }

  /** Every line is handed on once, in order. */
  lemma {:induction false} ClassifyEach(lines: seq<Bytes>, i: nat)
    requires i < |lines|
    ensures |ClassifyAll(lines)| == |lines| && ClassifyAll(lines)[i] == Classify(lines[i])
  {
    hide Classify;
    if |lines| > 1 {
      ClassifyEach(lines[1..], if i == 0 then 0 else i - 1);
    }
  }

  lemma {:induction false} ClassifyAppend(a: seq<Bytes>, b: seq<Bytes>)
    ensures ClassifyAll(a + b) == ClassifyAll(a) + ClassifyAll(b)
  {
    hide Classify;
    if a == [] {
      assert a + b == b;
    } else {
      ClassifyAppend(a[1..], b);
      assert (a + b)[1..] == a[1..] + b;
      AssocSentences([Classify(a[0])], ClassifyAll(a[1..]), ClassifyAll(b));
    }
  }

  /** Handling the lines portion by portion or all together gives the same sentences. */
  lemma {:induction false} SessionIsFeed(handled: seq<Sentence>, held: Bytes, chunks: seq<Bytes>)
    ensures Session(handled, held, chunks)
      == (handled + ClassifyAll(Feed(held, chunks).0), Feed(held, chunks).1)
  {
    if chunks == [] {
      assert handled + [] == handled;
    } else {
      var before, chunk := chunks[..|chunks| - 1], chunks[|chunks| - 1];
      var (lines, rest) := Feed(held, before);
      SessionIsFeed(handled, held, before);
      hide Lines, Residue;
      ClassifyAppend(lines, Lines(rest + chunk));
      AssocSentences(handled, ClassifyAll(lines), ClassifyAll(Lines(rest + chunk)));
    }
  }

  lemma AssocSentences(a: seq<Sentence>, b: seq<Sentence>, c: seq<Sentence>)
    ensures a + (b + c) == a + b + c
  {
  }

  /** The sentences are those of the stream, however it was received. */
  lemma SessionIsStream(handled: seq<Sentence>, held: Bytes, chunks: seq<Bytes>)
    requires LF !in held
    ensures Session(handled, held, chunks)
      == (handled + ClassifyAll(Lines(held + Concat(chunks))), Residue(held + Concat(chunks)))
  {
    SessionIsFeed(handled, held, chunks);
    ChunksIrrelevant(held, chunks);
  }

  /** Bytes arrive, at most 31 of them are kept, and updateRx takes them. */
  method ReceiveAndUpdate(gps: GPS, bytes: Bytes)
    requires gps.Valid() && gps.serial.Pending() == []
    modifies gps, gps.buffer, gps.buffer.memory, gps.serial.rxBuffer, gps.serial.rxBuffer.buffer
    ensures gps.Valid() && gps.serial.Pending() == []
    ensures fresh(gps.buffer.memory) || gps.buffer.memory == old(gps.buffer.memory)
    ensures var s := old(gps.buffer.Contents()) + LastN(bytes, RX_BUFFER_SIZE - 1);
      gps.handled == old(gps.handled) + ClassifyAll(Lines(s)) && gps.buffer.Contents() == Residue(s)
  {
    hide ClassifyAll, Lines, Residue;
    gps.serial.Receive(bytes);
    NothingBefore(bytes);
    gps.UpdateRx();
  }

  /** The driver itself, over any number of updates. */
  method Replay(gps: GPS, arrivals: seq<Bytes>)
    requires gps.Valid() && gps.serial.Pending() == []
    modifies gps, gps.buffer, gps.buffer.memory, gps.serial.rxBuffer, gps.serial.rxBuffer.buffer
    ensures gps.Valid() && gps.serial.Pending() == []
    ensures var stream := old(gps.buffer.Contents()) + Concat(Kept(arrivals));
      gps.handled == old(gps.handled) + ClassifyAll(Lines(stream)) && gps.buffer.Contents() == Residue(stream)
  {
    ghost var handled, held := gps.handled, gps.buffer.Contents();
    hide ClassifyAll, Lines, Residue, Ring;
    for i := 0 to |arrivals|
      invariant gps.Valid() && gps.serial.Pending() == []
      invariant fresh(gps.buffer.memory) || gps.buffer.memory == old(gps.buffer.memory)
      invariant Session(handled, held, Kept(arrivals[..i])) == (gps.handled, gps.buffer.Contents())
    {
      ReceiveAndUpdate(gps, arrivals[i]);
      KeptNext(arrivals, i);
    }
    assert arrivals[..|arrivals|] == arrivals;
    SessionIsStream(handled, held, Kept(arrivals));
  }
}
