// A raw Mode S frame: its downlink format, its parity field, the classification
// of a frame into short, long and extended-squitter messages, the parity check of
// DF 11/17/18 and the recovery of the address overlaid on the parity of the
// other formats (ICAO Annex 10 Volume IV, section 3.1.2.3.3).

module ModeS {
  import opened Bits
  import opened Crc
  import Text

  const ShortSquitterBitLength: nat := 56
  const ExtendedSquitterBitLength: nat := 112

  const DownlinkFormatShortAirAirSurveillance: nat := 0
  const DownlinkFormatAltitudeReply: nat := 4
  const DownlinkFormatIdentityReply: nat := 5
  const DownlinkFormatAllCallReply: nat := 11
  const DownlinkFormatLongAirAirSurveillance: nat := 16
  const DownlinkFormatExtendedSquitter: nat := 17
  const DownlinkFormatExtendedSquitterNonTransponder: nat := 18
  const DownlinkFormatMilitaryExtendedSquitter: nat := 19
  const DownlinkFormatCommBWithAltitudeReply: nat := 20
  const DownlinkFormatCommBWithIdentityReply: nat := 21
  const DownlinkFormatCommDExtendedLengthMessage: nat := 24

  /** A frame as received: 7 or 14 bytes when well formed, but any length is representable. */
  type Frame = seq<byte>

  /** The three kinds of frame the decoder accepts, each wrapping the whole frame. */
  datatype QualifiedMessage =
    | ShortMessage(frame: Frame)
    | LongMessage(frame: Frame)
    | ExtendedSquitter(frame: Frame)

  datatype Error =
    | ErrUnsupportedFormat(df: nat, length: nat)
    | ErrWrongCRC(found: nat, computed: nat)

  datatype Result<T> = Ok(value: T) | Err(error: Error)

  /** The downlink format: the five top bits of the first byte. */
  function DownlinkFormat(m: Frame): (df: nat)
    requires |m| >= 1
    ensures df < 32
    ensures df == ReadBits(m, 0, 5)
  {
    ByteField(m, 0, 0, 5);
    TopFive(m[0]);
    m[0] / 8
  }

  /** The parity field: the last three bytes, big-endian. */
  function ParityInterrogator(m: Frame): (r: nat)
    requires |m| >= 3
    ensures r < Pow2(24)
    ensures r == ReadBits(m, 8 * (|m| - 3), 24)
  {
    var l := |m|;
    ParityBits(m);
    (m[l - 3] as int) * 0x1_0000 + (m[l - 2] as int) * 0x100 + m[l - 1] as int
  }

  lemma ParityBits(m: Frame)
    requires |m| >= 3
    ensures ReadBits(m, 8 * (|m| - 3), 24)
         == (m[|m| - 3] as int) * 0x1_0000 + (m[|m| - 2] as int) * 0x100 + m[|m| - 1] as int
    ensures ReadBits(m, 8 * (|m| - 3), 24) < Pow2(24)
  {
    var off := 8 * (|m| - 3);
    ReadBitsSplit(m, off, 8, 16);
    ReadBitsSplit(m, off + 8, 8, 8);
    ReadByte(m, |m| - 3);
    ReadByte(m, |m| - 2);
    ReadByte(m, |m| - 1);
    Pow2Values();
    ReadBitsBound(m, off, 24);
  }

  predicate IsExtendedSquitterFormat(df: nat)
  {
    df == DownlinkFormatExtendedSquitter || df == DownlinkFormatExtendedSquitterNonTransponder
    || df == DownlinkFormatMilitaryExtendedSquitter
  }

  predicate IsLongMessageFormat(df: nat)
  {
    df == DownlinkFormatLongAirAirSurveillance || df == DownlinkFormatCommBWithAltitudeReply
    || df == DownlinkFormatCommBWithIdentityReply || df == DownlinkFormatCommDExtendedLengthMessage
  }

  predicate IsShortMessageFormat(df: nat)
  {
    df == DownlinkFormatShortAirAirSurveillance || df == DownlinkFormatAltitudeReply
    || df == DownlinkFormatIdentityReply || df == DownlinkFormatAllCallReply
  }

  /** Classification by (downlink format, length); anything else is unsupported. */
  function Qualify(m: Frame): (r: Result<QualifiedMessage>)
    requires |m| >= 1
    ensures r == Ok(ExtendedSquitter(m)) <==>
              IsExtendedSquitterFormat(DownlinkFormat(m)) && |m| == ExtendedSquitterBitLength / 8
    ensures r == Ok(LongMessage(m)) <==>
              IsLongMessageFormat(DownlinkFormat(m)) && |m| == ExtendedSquitterBitLength / 8
    ensures r == Ok(ShortMessage(m)) <==>
              IsShortMessageFormat(DownlinkFormat(m)) && |m| == ShortSquitterBitLength / 8
    ensures r.Ok? ==> r.value.frame == m
    ensures r.Err? ==> r.error == ErrUnsupportedFormat(DownlinkFormat(m), |m|)
  {
    var df := DownlinkFormat(m);
    if IsExtendedSquitterFormat(df) && |m| == ExtendedSquitterBitLength / 8 then
      Ok(ExtendedSquitter(m))
    else if IsLongMessageFormat(df) && |m| == ExtendedSquitterBitLength / 8 then
      Ok(LongMessage(m))
    else if IsShortMessageFormat(df) && |m| == ShortSquitterBitLength / 8 then
      Ok(ShortMessage(m))
    else
      Err(ErrUnsupportedFormat(df, |m|))
  }

  /** A frame is accepted exactly when its (format, length) pair is one of the three
      supported families, and the families do not overlap. */
  lemma QualifyAccepts(m: Frame)
    requires |m| >= 1
    ensures Qualify(m).Ok? <==>
              (|m| == 14 && (IsExtendedSquitterFormat(DownlinkFormat(m)) || IsLongMessageFormat(DownlinkFormat(m))))
              || (|m| == 7 && IsShortMessageFormat(DownlinkFormat(m)))
    ensures !(IsExtendedSquitterFormat(DownlinkFormat(m)) && IsLongMessageFormat(DownlinkFormat(m)))
    ensures !(IsShortMessageFormat(DownlinkFormat(m)) && IsLongMessageFormat(DownlinkFormat(m)))
    ensures !(IsShortMessageFormat(DownlinkFormat(m)) && IsExtendedSquitterFormat(DownlinkFormat(m)))
  {
  }

  predicate HasParityCheck(df: nat)
  {
    df == DownlinkFormatAllCallReply || df == DownlinkFormatExtendedSquitter
    || df == DownlinkFormatExtendedSquitterNonTransponder
  }

  predicate HasAddressParity(df: nat)
  {
    df == DownlinkFormatShortAirAirSurveillance || df == DownlinkFormatAltitudeReply
    || df == DownlinkFormatIdentityReply || df == DownlinkFormatLongAirAirSurveillance
    || df == DownlinkFormatCommBWithAltitudeReply || df == DownlinkFormatCommBWithIdentityReply
    || df == DownlinkFormatCommDExtendedLengthMessage
  }

  /** The message part covered by the parity: everything but the last three bytes. */
  function Payload(m: Frame): (p: seq<byte>)
    requires |m| >= 3
    ensures |p| == |m| - 3 && p == m[..|m| - 3]
  {
    m[..|m| - 3]
  }

  /** The parity check: only DF 11, 17 and 18 are checked; they fail exactly when the
      CRC-24 remainder of the payload differs from the parity field. */
  function CheckSum(m: Frame): (r: Text.Option<Error>)
    requires |m| >= 1
    requires HasParityCheck(DownlinkFormat(m)) ==> 3 <= |m| <= 35
    ensures r.Some? <==> HasParityCheck(DownlinkFormat(m))
                         && SerialChecksum(Payload(m), PolynomCRC) != ReadBits(m, 8 * (|m| - 3), 24)
    ensures r.Some? ==> r.value.ErrWrongCRC?
  {
    if HasParityCheck(DownlinkFormat(m)) then
      var remainder := Squitter(Payload(m));
      var parity := ParityInterrogator(m);
      if remainder != parity then Text.Some(ErrWrongCRC(parity, remainder)) else Text.None
    else
      Text.None
  }

  /** The address overlaid on the parity: parity XOR the CRC remainder of the payload,
      for the formats whose parity carries the address; 0 for the others. */
  function IcaoAddrChecksum(m: Frame): (a: nat)
    requires |m| >= 1
    requires HasAddressParity(DownlinkFormat(m)) ==> 3 <= |m| <= 35
    ensures a < Pow2(24)
    ensures !HasAddressParity(DownlinkFormat(m)) ==> a == 0
  {
    if HasAddressParity(DownlinkFormat(m)) then
      XorWord(ParityInterrogator(m), Squitter(Payload(m)))
    else
      0
  }

  /** When the transmitter overlays address `addr` on the remainder, the address is
      recovered exactly. */
  lemma IcaoAddrRecovers(m: Frame, addr: nat)
    requires |m| >= 1 && HasAddressParity(DownlinkFormat(m)) && 3 <= |m| <= 35
    requires addr < Pow2(24)
    requires ParityInterrogator(m) == XorWord(Squitter(Payload(m)), addr)
    ensures IcaoAddrChecksum(m) == addr
  {
    XorWordCancel(Squitter(Payload(m)), addr);
  }

  /** The frame as upper-case hexadecimal, two digits per byte. */
  function String(m: Frame): (s: string)
    ensures |s| == 2 * |m|
    ensures Text.UnhexBytes(s) == Text.Some(m)
    ensures forall i :: 0 <= i < |s| ==> s[i] in Text.HexDigits
  {
    Text.UnhexHexBytes(m);
    Text.HexBytes(m)
  }

  /** The 13-bit AC/ID field of a surveillance or Comm-B reply (bits 19 to 31). */
  function CodeField(m: Frame): (r: nat)
    requires |m| >= 4
    ensures r == ReadBits(m, 19, 13)
    ensures r < 0x2000
  {
    ReadBitsSplit(m, 19, 5, 8);
    ByteField(m, 2, 3, 5);
    LowFive(m[2]);
    ReadByte(m, 3);
    Pow2Values();
    ((m[2] % 32) as int) * 256 + m[3] as int
  }

  /** The AC/ID field depends on the first four bytes only. */
  lemma CodeFieldPrefix(m: Frame, m': Frame)
    requires |m| >= 4 && |m'| >= 4 && m[..4] == m'[..4]
    ensures CodeField(m) == CodeField(m')
  {
    assert m[2] == m'[2] && m[3] == m'[3];
  }

  /** The extended-squitter type code: the top five bits of the ME field (byte 4). */
  function TypeCode(m: Frame): (tc: nat)
    requires |m| >= 5
    ensures tc < 32 && tc == ReadBits(m, 32, 5)
  {
    ByteField(m, 4, 0, 5);
    TopFive(m[4]);
    m[4] / 8
  }

  /** The extended-squitter subtype code: the three bits after the type code. */
  function SubTypeCode(m: Frame): (st: nat)
    requires |m| >= 5
    ensures st < 8 && st == ReadBits(m, 37, 3)
  {
    ByteField(m, 4, 5, 3);
    LowThree(m[4]);
    m[4] % 8
  }
}
