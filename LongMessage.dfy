// A 112-bit frame whose address is not decoded: its data part starts after the
// first four bytes (the downlink format byte and the three address bytes).

module LongMessage {
  import opened Bits
  import opened ModeS

  const LongMessageName: string := "long message"

  /** The data bytes: the frame without its first four bytes. */
  function Message(m: Frame): (msg: seq<byte>)
    requires |m| >= 4
    ensures |msg| == |m| - 4
    ensures forall i :: 0 <= i < |msg| ==> msg[i] == m[i + 4]
  {
    m[4..]
  }

  /** A well-formed 14-byte frame gives 10 data bytes, so the field decoders' reads of
      data bytes 0 to 6 are in range and never touch the parity. */
  lemma MessageOfFullFrame(m: Frame)
    requires |m| == ExtendedSquitterBitLength / 8
    ensures |Message(m)| == 10
    ensures Message(m)[..7] == m[4..11]
  {
  }

  /** No address is decoded from a long message. */
  function AircraftAddress(m: Frame): (a: nat)
    ensures a == 0
  {
    0
  }

  function Name(m: Frame): (s: string)
    ensures s == LongMessageName
  {
    LongMessageName
  }
}
