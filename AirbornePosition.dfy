// The airborne position message of an extended squitter (type codes 9 to 18 and 20
// to 22, RTCA DO-260B section 2.2.3.2.3). Data bits, most significant first:
// TC(5) SS(2) SAF(1) ALT(12) T(1) F(1) LAT-CPR(17) LON-CPR(17).

module AirbornePosition {
  import opened Bits
  import opened ModeS
  import LongMessage
  import AltitudeCode

  const AirbornePositionName: string := "airborne position"

  /** The position messages have at least the seven data bytes the accessors read. */
  predicate WellSized(m: Frame)
  {
    |m| >= 11
  }

  // ---------------------------------------------------------------------------
  // Flags and fixed fields

  /** The surveillance status: data bits 5 and 6. */
  function SurveillanceStatus(m: Frame): (ss: nat)
    requires WellSized(m)
    ensures ss < 4 && ss == ReadBits(LongMessage.Message(m), 5, 2)
  {
    var msg := LongMessage.Message(m);
    StatusBits(msg);
    (msg[0] % 8) / 2
  }

  lemma StatusBits(msg: seq<byte>)
    requires |msg| >= 1
    ensures ReadBits(msg, 5, 2) == (msg[0] % 8) / 2 < 4
  {
    ByteField(msg, 0, 5, 2);
    MiddleTwoBits(msg[0]);
  }

  /** Bits 5 and 6 of a byte, two ways. */
  lemma MiddleTwoBits(x: nat)
    ensures (x / Pow2(8 - 5 - 2)) % Pow2(2) == (x % 8) / 2 < 4
  {
    assert Pow2(1) == 2 && Pow2(2) == 4;
    DivUnique(x, 8, x / 8, x % 8);
    DivUnique(x / 2, 4, x / 8, (x % 8) / 2);
  }

  /** The single antenna flag: data bit 7. */
  function SingleAntennaFlag(m: Frame): (saf: bool)
    requires WellSized(m)
    ensures saf <==> ReadBits(LongMessage.Message(m), 7, 1) == 1
  {
    var msg := LongMessage.Message(m);
    ReadOneBit(msg, 0, 7);
    msg[0] % 2 == 1
  }

  /** The UTC time flag: data bit 20. */
  function TimeUTC(m: Frame): (t: bool)
    requires WellSized(m)
    ensures t <==> ReadBits(LongMessage.Message(m), 20, 1) == 1
  {
    var msg := LongMessage.Message(m);
    ReadOneBit(msg, 2, 4);
    assert Pow2(3) == 8;
    (msg[2] / 8) % 2 == 1
  }

  /** The CPR format flag: data bit 21, set for an odd frame. */
  function OddFrame(m: Frame): (odd: bool)
    requires WellSized(m)
    ensures odd <==> ReadBits(LongMessage.Message(m), 21, 1) == 1
  {
    var msg := LongMessage.Message(m);
    ReadOneBit(msg, 2, 5);
    assert Pow2(2) == 4;
    (msg[2] / 4) % 2 == 1
  }

  /** `EncodedAltitude`: the 12-bit ALT field, data bits 8 to 19 (the or of disjoint
      shifted parts is their sum). */
  function EncodedAltitude(m: Frame): (alt: nat)
    requires WellSized(m)
    ensures alt < 0x1000 && alt == ReadBits(LongMessage.Message(m), 8, 12)
  {
    var msg := LongMessage.Message(m);
    AltFieldBits(msg);
    (msg[1] as int) * 16 + (msg[2] / 16) as int
  }

  lemma AltFieldBits(msg: seq<byte>)
    requires |msg| >= 3
    ensures ReadBits(msg, 8, 12) == (msg[1] as int) * 16 + (msg[2] / 16) as int
    ensures ReadBits(msg, 8, 12) < 0x1000
  {
    ReadBitsSplit(msg, 8, 8, 4);
    ReadByte(msg, 1);
    TopField(msg, 2, 4);
    assert Pow2(4) == 16;
    ReadBitsBound(msg, 8, 12);
    assert Pow2(12) == 0x1000;
  }

  /** `EncodedLatitude`: the 17-bit CPR latitude, data bits 22 to 38. */
  function EncodedLatitude(m: Frame): (lat: nat)
    requires WellSized(m)
    ensures lat < 0x2_0000 && lat == ReadBits(LongMessage.Message(m), 22, 17)
  {
    var msg := LongMessage.Message(m);
    LatitudeBits(msg);
    ((msg[2] % 4) as int) * 0x8000 + (msg[3] as int) * 0x80 + (msg[4] / 2) as int
  }

  lemma LatitudeBits(msg: seq<byte>)
    requires |msg| >= 5
    ensures ReadBits(msg, 22, 17) == ((msg[2] % 4) as int) * 0x8000 + (msg[3] as int) * 0x80 + (msg[4] / 2) as int
    ensures ReadBits(msg, 22, 17) < 0x2_0000
  {
    ReadBitsSplit(msg, 22, 2, 15);
    ReadBitsSplit(msg, 24, 8, 7);
    LowField(msg, 2, 2);
    ReadByte(msg, 3);
    TopField(msg, 4, 7);
    Pow2Add(8, 7);
    Pow2Values();
    assert Pow2(7) == 0x80 && Pow2(2) == 4 && Pow2(1) == 2;
    ReadBitsBound(msg, 22, 17);
    Pow2Add(16, 1);
  }

  /** `EncodedLongitude`: the 17-bit CPR longitude, data bits 39 to 55. */
  function EncodedLongitude(m: Frame): (lon: nat)
    requires WellSized(m)
    ensures lon < 0x2_0000 && lon == ReadBits(LongMessage.Message(m), 39, 17)
  {
    var msg := LongMessage.Message(m);
    LongitudeBits(msg);
    ((msg[4] % 2) as int) * 0x1_0000 + (msg[5] as int) * 0x100 + msg[6] as int
  }

  lemma LongitudeBits(msg: seq<byte>)
    requires |msg| >= 7
    ensures ReadBits(msg, 39, 17) == ((msg[4] % 2) as int) * 0x1_0000 + (msg[5] as int) * 0x100 + msg[6] as int
    ensures ReadBits(msg, 39, 17) < 0x2_0000
  {
    ReadBitsSplit(msg, 39, 1, 16);
    ReadBitsSplit(msg, 40, 8, 8);
    LowField(msg, 4, 1);
    ReadByte(msg, 5);
    ReadByte(msg, 6);
    Pow2Values();
    assert Pow2(1) == 2;
    ReadBitsBound(msg, 39, 17);
    Pow2Add(16, 1);
  }

  // ---------------------------------------------------------------------------
  // Altitude as the repository computes it

  /** The twelve bits the repository's `Altitude` reads: data bits 9 to 20, one place
      after the ALT field. */
  function ShiftedAltitudeBits(m: Frame): (x: nat)
    requires WellSized(m)
    ensures x < 0x1000 && x == ReadBits(LongMessage.Message(m), 9, 12)
  {
    var msg := LongMessage.Message(m);
    ShiftedAltitudeFieldBits(msg);
    ((msg[1] % 128) as int) * 32 + (msg[2] / 8) as int
  }

  lemma ShiftedAltitudeFieldBits(msg: seq<byte>)
    requires |msg| >= 3
    ensures ReadBits(msg, 9, 12) == ((msg[1] % 128) as int) * 32 + (msg[2] / 8) as int
    ensures ReadBits(msg, 9, 12) < 0x1000
  {
    ReadBitsSplit(msg, 9, 7, 5);
    LowField(msg, 1, 7);
    TopField(msg, 2, 5);
    assert Pow2(3) == 8 && Pow2(5) == 32 && Pow2(7) == 128;
    ReadBitsBound(msg, 9, 12);
    assert Pow2(12) == 0x1000;
  }

  /** `AirbornePosition.Altitude` as written: the Q bit is taken as `encoded & 0x10`
      (0 or 16) and compared with 1, so the barometric branch never yields a 25-foot
      altitude; the GNSS branch scales the shifted bits from metres to feet. */
  function AltitudeAsWritten(m: Frame): (r: real)
    requires WellSized(m)
    ensures 9 <= TypeCode(m) <= 18 ==> r == -1.0
    ensures 20 <= TypeCode(m) <= 22 ==> r == (ShiftedAltitudeBits(m) as real) * AltitudeCode.MeterToFeet
    ensures TypeCode(m) <= 8 || TypeCode(m) == 19 || TypeCode(m) >= 23 ==> r == 0.0
  {
    var typeCode := TypeCode(m);
    var encodedAltitude := ShiftedAltitudeBits(m);
    if 8 < typeCode < 19 then
      var encoded := encodedAltitude as bv16;
      var qBit := encoded & 0x10;
      var units := (encoded & 0x0F) + ((encoded & 0xFF0) >> 1);
      if qBit == 1 then (units as int as real) * 25.0 - 1000.0 else -1.0
    else if 19 < typeCode < 23 then
      (encodedAltitude as real) * AltitudeCode.MeterToFeet
    else
      0.0
  }

  // ---------------------------------------------------------------------------
  // Altitude as the standard defines it

  /** The 25-foot increments of an ALT field: the eleven bits other than Q. */
  function AltUnits(alt: bv16): (n: nat)
    ensures n < 2048
  {
    ((alt & 0x0F) + ((alt & 0xFE0) >> 1)) as nat
  }

  /** Barometric altitude of a 12-bit ALT field: 25-foot increments above -1000 ft when
      Q is set; -1 for the 100-foot Gillham form, which is not decoded. */
  function BaroAltitude(alt: bv16): (r: real)
    ensures alt & 0x10 != 0 ==>
              r == 25.0 * (AltUnits(alt) as real) - 1000.0 && -1000.0 <= r <= 50175.0
    ensures alt & 0x10 == 0 ==> r == -1.0
  {
    if alt & 0x10 != 0 then 25.0 * (AltUnits(alt) as real) - 1000.0 else -1.0
  }

  /** The altitude in feet read from the ALT field: barometric for type codes 9 to 18,
      GNSS metres converted to feet for 20 to 22, 0 otherwise. */
  function Altitude(m: Frame): (r: real)
    requires WellSized(m)
    ensures 9 <= TypeCode(m) <= 18 ==> r == BaroAltitude(EncodedAltitude(m) as bv16)
    ensures 20 <= TypeCode(m) <= 22 ==> r == (EncodedAltitude(m) as real) * AltitudeCode.MeterToFeet
    ensures TypeCode(m) <= 8 || TypeCode(m) == 19 || TypeCode(m) >= 23 ==> r == 0.0
  {
    var typeCode := TypeCode(m);
    var alt := EncodedAltitude(m);
    if 8 < typeCode < 19 then BaroAltitude(alt as bv16)
    else if 19 < typeCode < 23 then (alt as real) * AltitudeCode.MeterToFeet
    else 0.0
  }

  /** The ALT field is the 13-bit AC altitude code with its M bit removed: putting M = 0
      back gives a code that `altitudeFrom13Bits` decodes to the same altitude. */
  function WithMetricBit(alt: bv16): (code: bv16)
    requires alt < 0x1000
    ensures code & 0x40 == 0 && code < 0x2000
    ensures (code & 0x10 != 0) == (alt & 0x10 != 0)
  {
    ((alt & 0xFC0) << 1) | (alt & 0x3F)
  }

  lemma BaroMatchesAcCode(alt: bv16)
    requires alt < 0x1000 && alt & 0x10 != 0
    ensures BaroAltitude(alt) == AltitudeCode.AltitudeFrom13Bits(WithMetricBit(alt))
  {
    var code := WithMetricBit(alt);
    assert code & 0x1FFF != 0;
    assert AltUnits(alt) == AltitudeCode.Feet25Units(code);
  }

  /** A frame whose data starts 58 C3 82, such as 8D40621D58C382D690C8AC2863A7 (type
      code 11, ALT field 0xC38), reports 38000 ft, while the repository's `Altitude`
      reports -1 for it. */
  lemma AltitudeExample(m: Frame)
    requires WellSized(m) && m[4] == 0x58 && m[5] == 0xC3 && m[6] == 0x82
    ensures TypeCode(m) == 11
    ensures Altitude(m) == 38000.0
  {
    ExampleFields(m);
    BaroExample(EncodedAltitude(m));
  }

  lemma AltitudeAsWrittenExample(m: Frame)
    requires WellSized(m) && m[4] == 0x58 && m[5] == 0xC3 && m[6] == 0x82
    ensures AltitudeAsWritten(m) == -1.0
  {
    ExampleFields(m);
  }

  lemma BaroExample(alt: nat)
    requires alt == 0xC38
    ensures BaroAltitude(alt as bv16) == 38000.0
  {
    assert AltUnits(0xC38) == 1560;
  }

  lemma ExampleFields(m: Frame)
    requires WellSized(m) && m[4] == 0x58 && m[5] == 0xC3 && m[6] == 0x82
    ensures TypeCode(m) == 11 && EncodedAltitude(m) == 0xC38
  {
    var msg := LongMessage.Message(m);
    assert msg[1] == 0xC3 && msg[2] == 0x82;
  }

  function Name(m: Frame): (s: string)
    ensures s == AirbornePositionName
  {
    AirbornePositionName
  }
}
