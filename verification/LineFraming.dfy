/** Cutting a byte stream into lines that end in a line feed, however it arrives. */
module LineFraming {
  import opened MachineInts
  import opened ByteQueue

  const LF: uint8 := 10
  const CR: uint8 := 13

  /** Index of the first line feed, or the length. */
  function FirstLF(s: Bytes): (i: nat)
    ensures i <= |s| && (i < |s| ==> s[i] == LF) && LF !in s[..i]
  {
    if s == [] || s[0] == LF then 0 else 1 + FirstLF(s[1..])
  }

  /** The complete lines, each with its line feed. */
  function Lines(s: Bytes): seq<Bytes>
    decreases |s|
  {
    var i := FirstLF(s);
    if i == |s| then [] else [s[..i + 1]] + Lines(s[i + 1..])
  }

  /** What follows the last line feed. */
  function Residue(s: Bytes): Bytes
    decreases |s|
  {
    var i := FirstLF(s);
    if i == |s| then s else Residue(s[i + 1..])
  }

  function Flatten(lines: seq<Bytes>): Bytes {
    if lines == [] then [] else lines[0] + Flatten(lines[1..])
  }

  predicate IsLine(line: Bytes) {
    line != [] && line[|line| - 1] == LF && LF !in line[..|line| - 1]
  }

  lemma {:induction false} FirstLFUnique(s: Bytes, i: nat)
    requires i < |s| && s[i] == LF && LF !in s[..i]
    ensures FirstLF(s) == i
  {
    if i > 0 {
      assert s[0] == s[..i][0];
      assert s[1..][..i - 1] == s[..i][1..];
      FirstLFUnique(s[1..], i - 1);
    }
  }

  /** A line at the front is cut off whatever comes behind it. */
  lemma FirstLine(head: Bytes, tail: Bytes)
    requires IsLine(head)
    ensures FirstLF(head + tail) == |head| - 1 && (head + tail)[..|head|] == head && (head + tail)[|head|..] == tail
    ensures Lines(head + tail) == [head] + Lines(tail) && Residue(head + tail) == Residue(tail)
    ensures 2 <= |head + tail| ==>
      PatientLines(head + tail) == [head] + PatientLines(tail) && PatientRest(head + tail) == PatientRest(tail)
  {
    var i := |head| - 1;
    assert (head + tail)[..i] == head[..i];
    FirstLFUnique(head + tail, i);
    assert (head + tail)[..i + 1] == head && (head + tail)[i + 1..] == tail;
  }

  lemma CutFirst(s: Bytes) returns (head: Bytes, tail: Bytes)
    requires FirstLF(s) < |s|
    ensures IsLine(head) && s == head + tail
    ensures head == s[..FirstLF(s) + 1] && tail == s[FirstLF(s) + 1..]
  {
    head, tail := s[..FirstLF(s) + 1], s[FirstLF(s) + 1..];
    assert head[..FirstLF(s)] == s[..FirstLF(s)];
  }

  lemma NoLine(s: Bytes)
    requires FirstLF(s) == |s|
    ensures Lines(s) == [] && Residue(s) == s && PatientLines(s) == [] && PatientRest(s) == s && LF !in s
  {
    assert s[..FirstLF(s)] == s;
  }

  lemma NoLineFeed(s: Bytes)
    requires LF !in s
    ensures Lines(s) == [] && Residue(s) == s
  {
    assert FirstLF(s) == |s|;
  }

  /** A search that stops at the first line feed has found FirstLF. */
  lemma FoundIsFirst(s: Bytes, index: nat)
    requires index <= |s| && (index < |s| ==> s[index] == LF) && forall k | 0 <= k < index :: s[k] != LF
    ensures FirstLF(s) == index
  {
    if index < |s| {
      FirstLFUnique(s, index);
    }
  }

  /** The lines and the residue make up the stream, and they are cut at every line feed and
      nowhere else. */
  lemma {:induction false} LinesPartition(s: Bytes)
    ensures Flatten(Lines(s)) + Residue(s) == s
    ensures forall k | 0 <= k < |Lines(s)| :: IsLine(Lines(s)[k])
    ensures LF !in Residue(s) && LF == '\n' as int
    decreases |s|
  {
    if FirstLF(s) < |s| {
      var head, tail := CutFirst(s);
      LinesPartition(tail);
      FirstLine(head, tail);
      FlattenCons(head, Lines(tail), Residue(tail));
    } else {
      NoLine(s);
    }
  }

  lemma FlattenCons(line: Bytes, lines: seq<Bytes>, rest: Bytes)
    ensures Flatten([line] + lines) + rest == line + (Flatten(lines) + rest)
  {
    assert ([line] + lines)[1..] == lines;
  }

  lemma AssocLines(head: Bytes, l: seq<Bytes>, m: seq<Bytes>)
    ensures [head] + (l + m) == [head] + l + m
  {
  }

  lemma Assoc(a: Bytes, b: Bytes, c: Bytes)
    ensures a + (b + c) == a + b + c
  {
  }

  /** Cutting may be done in two portions. */
  lemma {:induction false} LinesSplit(a: Bytes, b: Bytes)
    ensures Lines(a + b) == Lines(a) + Lines(Residue(a) + b)
    ensures Residue(a + b) == Residue(Residue(a) + b)
    decreases |a|
  {
    if FirstLF(a) < |a| {
      var head, tail := CutFirst(a);
      LinesSplit(tail, b);
      SplitAfterLine(head, tail, b);
    } else {
      NoLine(a);
    }
  }

  lemma SplitAfterLine(head: Bytes, tail: Bytes, b: Bytes)
    requires IsLine(head)
    requires Lines(tail + b) == Lines(tail) + Lines(Residue(tail) + b)
    ensures Lines(head + tail + b) == Lines(head + tail) + Lines(Residue(head + tail) + b)
    ensures Residue(head + tail + b) == Residue(tail + b) && Residue(head + tail) == Residue(tail)
  {
    FirstLine(head, tail);
    FirstLine(head, tail + b);
    Assoc(head, tail, b);
    AssocLines(head, Lines(tail), Lines(Residue(tail) + b));
  }

  /** The lines cut and the buffer left after a series of portions, beginning with a given buffer. */
  function Feed(held: Bytes, chunks: seq<Bytes>): (seq<Bytes>, Bytes) {
    if chunks == [] then ([], held) else
      var (lines, rest) := Feed(held, chunks[..|chunks| - 1]);
      var s := rest + chunks[|chunks| - 1];
      (lines + Lines(s), Residue(s))
  }

  function Concat(chunks: seq<Bytes>): Bytes {
    if chunks == [] then [] else Concat(chunks[..|chunks| - 1]) + chunks[|chunks| - 1]
  }

  /** The portions do not matter, only the stream does. */
  lemma {:induction false} ChunksIrrelevant(held: Bytes, chunks: seq<Bytes>)
    requires LF !in held
    ensures Feed(held, chunks) == (Lines(held + Concat(chunks)), Residue(held + Concat(chunks)))
  {
    if chunks == [] {
      NoLineFeed(held);
      assert held + [] == held;
    } else {
      var before, chunk := chunks[..|chunks| - 1], chunks[|chunks| - 1];
      ChunksIrrelevant(held, before);
      LinesSplit(held + Concat(before), chunk);
      Assoc(held, Concat(before), chunk);
    }
  }

  /** The same, except that a buffer of fewer than two bytes is left alone. */
  function PatientLines(s: Bytes): seq<Bytes>
    decreases |s|
  {
    var i := FirstLF(s);
    if |s| < 2 || i == |s| then [] else [s[..i + 1]] + PatientLines(s[i + 1..])
  }

  function PatientRest(s: Bytes): Bytes
    decreases |s|
  {
    var i := FirstLF(s);
    if |s| < 2 || i == |s| then s else PatientRest(s[i + 1..])
  }

  lemma {:induction false} PatientSplit(a: Bytes, b: Bytes)
    ensures PatientLines(a + b) == PatientLines(a) + PatientLines(PatientRest(a) + b)
    ensures PatientRest(a + b) == PatientRest(PatientRest(a) + b)
    decreases |a|
  {
    if FirstLF(a) < |a| && 2 <= |a| {
      var head, tail := CutFirst(a);
      PatientSplit(tail, b);
      PatientSplitAfterLine(head, tail, b);
    }
  }

  lemma PatientSplitAfterLine(head: Bytes, tail: Bytes, b: Bytes)
    requires IsLine(head) && 2 <= |head + tail|
    requires PatientLines(tail + b) == PatientLines(tail) + PatientLines(PatientRest(tail) + b)
    ensures PatientLines(head + tail + b) == PatientLines(head + tail) + PatientLines(PatientRest(head + tail) + b)
    ensures PatientRest(head + tail + b) == PatientRest(tail + b) && PatientRest(head + tail) == PatientRest(tail)
  {
    FirstLine(head, tail);
    FirstLine(head, tail + b);
    Assoc(head, tail, b);
    AssocLines(head, PatientLines(tail), PatientLines(PatientRest(tail) + b));
  }

  lemma NoMoreLines(s: Bytes)
    ensures PatientLines(PatientRest(s)) == []
  {
    PatientSplit(s, []);
    assert s + [] == s && PatientRest(s) + [] == PatientRest(s);
  }

  function PatientFeed(held: Bytes, chunks: seq<Bytes>): (seq<Bytes>, Bytes) {
    if chunks == [] then ([], held) else
      var (lines, rest) := PatientFeed(held, chunks[..|chunks| - 1]);
      var s := rest + chunks[|chunks| - 1];
      (lines + PatientLines(s), PatientRest(s))
  }

  lemma {:induction false} PatientChunksIrrelevant(held: Bytes, chunks: seq<Bytes>)
    requires PatientLines(held) == []
    ensures PatientFeed(held, chunks) == (PatientLines(held + Concat(chunks)), PatientRest(held + Concat(chunks)))
  {
    if chunks == [] {
      assert held + [] == held && PatientRest(held) == held;
    } else {
      var before, chunk := chunks[..|chunks| - 1], chunks[|chunks| - 1];
      PatientChunksIrrelevant(held, before);
      PatientSplit(held + Concat(before), chunk);
      Assoc(held, Concat(before), chunk);
    }
  }

  lemma LineFeedAlone()
    ensures Lines([LF]) == [[LF]] && Residue([LF]) == [] && PatientLines([LF]) == [] && PatientRest([LF]) == [LF]
  {
    assert [LF][..1] == [LF] && [LF][1..] == [];
  }

  /** A single line feed at the end of the stream is held back, as a line of its own that waits for
      the next byte; apart from that the lines are the same. */
  lemma {:induction false} PatientOrNot(s: Bytes)
    ensures PatientRest(s) == [LF] ==> Lines(s) == PatientLines(s) + [[LF]] && Residue(s) == []
    ensures PatientRest(s) != [LF] ==> Lines(s) == PatientLines(s) && Residue(s) == PatientRest(s)
    decreases |s|
  {
    if FirstLF(s) == |s| {
      NoLine(s);
    } else if |s| < 2 {
      assert s == [LF];
      LineFeedAlone();
    } else {
      var head, tail := CutFirst(s);
      PatientOrNot(tail);
      FirstLine(head, tail);
      assert [head] + (PatientLines(tail) + [[LF]]) == [head] + PatientLines(tail) + [[LF]];
    }
  }
}
