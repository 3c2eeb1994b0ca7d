/** The three drivers when the receive interrupt comes during their updates: what the updates have taken
    and what is left in the ring are, in this order, the bytes received, and the drivers have made of
    the bytes taken what they make of any stream. */
module DriverCalls {
  import opened MachineInts
  import opened ByteQueue
  import opened LineFraming
  import opened UartCalls
  import opened UartInterleaving

  import AxSigfox
  import Gps
  import Rn2483

  /** The updates of the GPS driver read with readAppend and its default maximum; the calls are those
      that do not miscount. */
  lemma GpsInterrupted(handled: seq<Gps.Sentence>, held: Bytes, ring: State, calls: seq<Call>)
    requires LF !in held && RingInv(ring) && ring.pc.Done? && AreCalls(ring, ReadAppend(0xFFFF), calls)
    ensures var chunks, after := Results(ring, calls), After(ring, calls);
      && Gps.Session(handled, held, chunks)
         == (handled + Gps.ClassifyAll(Lines(held + Concat(chunks))), Residue(held + Concat(chunks)))
      && InRange(after) && Concat(chunks) + Resident(after) == Resident(ring) + Arrived(calls)
  {
    Gps.SessionIsStream(handled, held, Results(ring, calls));
    CallsConserve(ring, ReadAppend(0xFFFF), calls);
  }

  /** So do those of the LoRa driver. */
  lemma Rn2483Interrupted(l: Rn2483.Link, held: Bytes, ring: State, calls: seq<Call>)
    requires PatientLines(held) == [] && RingInv(ring) && ring.pc.Done? && AreCalls(ring, ReadAppend(0xFFFF), calls)
    ensures var chunks, after := Results(ring, calls), After(ring, calls);
      && Rn2483.Session(l, held, chunks)
         == (Rn2483.HandleAll(l, PatientLines(held + Concat(chunks))), PatientRest(held + Concat(chunks)))
      && InRange(after) && Concat(chunks) + Resident(after) == Resident(ring) + Arrived(calls)
  {
    Rn2483.SessionIsStream(l, held, Results(ring, calls));
    CallsConserve(ring, ReadAppend(0xFFFF), calls);
  }

  /** The results of updates as receipts at the given times. */
  function AsReceipts(chunks: seq<Bytes>, times: seq<uint32>): (receipts: seq<AxSigfox.Receipt>)
    requires |times| == |chunks|
    ensures |receipts| == |chunks|
  {
    seq(|chunks|, i requires 0 <= i < |chunks| => AxSigfox.Receipt(chunks[i], times[i]))
  }

  lemma {:induction false} StreamIsConcat(chunks: seq<Bytes>, times: seq<uint32>)
    requires |times| == |chunks|
    ensures AxSigfox.Stream(AsReceipts(chunks, times)) == Concat(chunks)
    decreases |chunks|
  {
    if chunks != [] {
      var n := |chunks| - 1;
      StreamIsConcat(chunks[..n], times[..n]);
      assert AsReceipts(chunks, times)[..n] == AsReceipts(chunks[..n], times[..n]);
    }
  }

  /** The updates of the Sigfox driver drain the ring byte by byte and mask the interrupt while they
      read, so that no call is excluded. */
  lemma AxSigfoxInterrupted(d: AxSigfox.Driver, sent: uint32, ring: State, calls: seq<Call>, times: seq<uint32>)
    requires LF !in d.line && RingInv(ring) && ring.pc.Done? && AreCalls(ring, Drain, calls) && |times| == |calls|
    ensures var chunks, after := Results(ring, calls), After(ring, calls);
      var receipts, s := AsReceipts(chunks, times), d.line + Concat(chunks);
      var messages, expired := AxSigfox.StreamMessages(s), AxSigfox.EverTimedOut(sent, receipts);
      && AxSigfox.Session(d, sent, receipts)
         == AxSigfox.Driver(Residue(s), d.messages + messages,
                            AxSigfox.ProcessAll(AxSigfox.Expire(d.modem, expired), messages))
      && InRange(after) && Concat(chunks) + Resident(after) == Resident(ring) + Arrived(calls)
  {
    AxSigfox.SessionIsStream(d, sent, AsReceipts(Results(ring, calls), times));
    StreamIsConcat(Results(ring, calls), times);
    CallsConserve(ring, Drain, calls);
  }
}
