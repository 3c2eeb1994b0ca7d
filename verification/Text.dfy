/** Text as the program writes it in its source, in terms of bytes. */
module Texts {
  import opened MachineInts
  import opened ByteQueue

  /** The bytes of a text; all that are used are in ASCII. */
  function Ascii(s: string): (b: Bytes)
    ensures |b| == |s|
  {
    seq(|s|, i requires 0 <= i < |s| => ToUInt8(s[i] as int))
  }
}
