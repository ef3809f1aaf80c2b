// The airborne velocity message of an extended squitter (type code 19, RTCA DO-260B
// section 2.2.3.2.6). Data bits, most significant first: TC(5) ST(3) IC(1) IFR(1)
// NUC(3), 22 subtype-specific bits 13 to 34, VrSrc(1) Svr(1) VR(9) reserved(2)
// SDif(1) dAlt(7). Subtypes 1 and 2 carry east-west and north-south ground speed
// components; subtypes 3 and 4 carry a heading and an air speed.

module AirborneVelocity {
  import opened Bits
  import opened ModeS
  import LongMessage

  const AirborneVelocityName: string := "airborne velocity"

  /** The velocity accessors read the first seven data bytes. */
  predicate WellSized(m: Frame)
  {
    |m| >= 11
  }

  /** Bit `i` of the data bytes. */
  function DataBit(m: Frame, i: nat): bool
    requires WellSized(m) && i < 56
  {
    ReadBits(LongMessage.Message(m), i, 1) == 1
  }

  /** The `n`-bit field of the data bytes starting at bit `off`. */
  function DataField(m: Frame, off: nat, n: nat): nat
    requires WellSized(m) && off + n <= 56
  {
    ReadBits(LongMessage.Message(m), off, n)
  }

  // ---------------------------------------------------------------------------
  // Fields

  /** `subType`: the three bits after the type code. */
  function SubType(m: Frame): (st: nat)
    requires WellSized(m)
    ensures st < 8 && st == DataField(m, 5, 3)
    ensures st == SubTypeCode(m)
  {
    var msg := LongMessage.Message(m);
    LowField(msg, 0, 3);
    assert Pow2(3) == 8;
    msg[0] % 8
  }

  /** `IsBaroVerticalRate`: the vertical rate source bit (data bit 35). */
  function IsBaroVerticalRate(m: Frame): (baro: bool)
    requires WellSized(m)
    ensures baro <==> DataBit(m, 35)
  {
    var msg := LongMessage.Message(m);
    ReadOneBit(msg, 4, 3);
    assert Pow2(4) == 16;
    (msg[4] / 16) % 2 != 0
  }

  /** The four subtype-specific values: a flag, a 10-bit value, a flag, a 10-bit value.
      For subtypes 1 and 2 they are the east-west direction and velocity, then the
      north-south direction and velocity; for 3 and 4 the heading status and heading,
      then the air speed type and air speed. */
  datatype SpecificFields = SpecificFields(flag1: bool, flag2: bool, value1: nat, value2: nat)

  /** `subTypeFields`: the four values from data bits 13, 14-23, 24 and 25-34. */
  function SubTypeFields(m: Frame): (f: SpecificFields)
    requires WellSized(m)
    ensures f.flag1 <==> DataBit(m, 13)
    ensures f.value1 == DataField(m, 14, 10) && f.value1 < 1024
    ensures f.flag2 <==> DataBit(m, 24)
    ensures f.value2 == DataField(m, 25, 10) && f.value2 < 1024
  {
    var msg := LongMessage.Message(m);
    SpecificBits(msg);
    var one := (msg[1] / 4) % 2;
    var two := ((msg[1] % 4) as int) * 256 + msg[2] as int;
    var three := msg[3] / 128;
    var four := ((msg[3] % 128) as int) * 8 + (msg[4] / 32) as int;
    SpecificFields(one == 1, three == 1, two, four)
  }

  lemma SpecificBits(msg: seq<byte>)
    requires |msg| >= 5
    ensures ReadBits(msg, 13, 1) == (msg[1] / 4) % 2
    ensures ReadBits(msg, 14, 10) == ((msg[1] % 4) as int) * 256 + msg[2] as int
    ensures ReadBits(msg, 24, 1) == msg[3] / 128
    ensures ReadBits(msg, 25, 10) == ((msg[3] % 128) as int) * 8 + (msg[4] / 32) as int
  {
    ReadOneBit(msg, 1, 5);
    assert Pow2(2) == 4;
    FirstValueBits(msg);
    ReadOneBit(msg, 3, 0);
    assert Pow2(7) == 128;
    SecondValueBits(msg);
  }

  lemma FirstValueBits(msg: seq<byte>)
    requires |msg| >= 3
    ensures ReadBits(msg, 14, 10) == ((msg[1] % 4) as int) * 256 + msg[2] as int
  {
    ReadBitsSplit(msg, 14, 2, 8);
    LowField(msg, 1, 2);
    ReadByte(msg, 2);
    Pow2Values();
    assert Pow2(2) == 4;
  }

  lemma SecondValueBits(msg: seq<byte>)
    requires |msg| >= 5
    ensures ReadBits(msg, 25, 10) == ((msg[3] % 128) as int) * 8 + (msg[4] / 32) as int
  {
    ReadBitsSplit(msg, 25, 7, 3);
    LowField(msg, 3, 7);
    TopField(msg, 4, 3);
    assert Pow2(3) == 8 && Pow2(5) == 32 && Pow2(7) == 128;
  }

  /** `IsTrueAirSpeed`: the air speed type bit, for the air speed subtypes only. */
  function IsTrueAirSpeed(m: Frame): (tas: bool)
    requires WellSized(m)
    ensures tas <==> (SubType(m) == 3 || SubType(m) == 4) && DataBit(m, 24)
  {
    var subtype := SubType(m);
    if subtype == 3 || subtype == 4 then
      var msg := LongMessage.Message(m);
      ReadOneBit(msg, 3, 0);
      assert Pow2(7) == 128;
      msg[3] / 128 != 0
    else
      false
  }

  /** `IsGroundSpeed`: subtypes 1 and 2. */
  function IsGroundSpeed(m: Frame): (gs: bool)
    requires WellSized(m)
    ensures gs <==> SubType(m) == 1 || SubType(m) == 2
  {
    var subType := SubType(m);
    subType == 1 || subType == 2
  }

  // ---------------------------------------------------------------------------
  // Vertical rate and altitude difference

  const Uint32Modulus: int := 0x1_0000_0000

  /** The largest magnitude `VerticalRate` produces: (0 - 1) * 64 wrapped to 32 bits. */
  const WrappedRate: int := 0xFFFF_FFC0

  /** `VerticalRate`: (VR - 1) * 64 feet per minute, negative when the sign bit (data
      bit 36) is set. The subtraction and product are 32-bit unsigned, so VR = 0 wraps
      to 2^32 - 64 where the formula reads -64. */
  function VerticalRate(m: Frame): (r: int)
    requires WellSized(m)
    ensures DataField(m, 37, 9) >= 1 ==>
              r == (if DataBit(m, 36) then -1 else 1) * (DataField(m, 37, 9) - 1) * 64
    ensures DataField(m, 37, 9) == 0 ==> r == (if DataBit(m, 36) then -1 else 1) * WrappedRate
    ensures DataField(m, 37, 9) >= 1 ==> -32640 <= r <= 32640
  {
    var msg := LongMessage.Message(m);
    RateBits(msg);
    var rate := ((msg[4] % 8) as int) * 64 + (msg[5] / 4) as int;
    var absoluteRate := (((rate - 1) % Uint32Modulus) * 64) % Uint32Modulus;
    WrappedProduct(rate);
    if (msg[4] / 8) % 2 != 0 then -absoluteRate else absoluteRate
  }

  /** The 32-bit unsigned `(rate - 1) * 64` of a 9-bit rate: exact, except for 0. */
  lemma WrappedProduct(rate: int)
    requires 0 <= rate < 512
    ensures (((rate - 1) % Uint32Modulus) * 64) % Uint32Modulus
         == if rate == 0 then WrappedRate else (rate - 1) * 64
  {
    if rate == 0 {
      assert (rate - 1) % Uint32Modulus == Uint32Modulus - 1;
      assert (Uint32Modulus - 1) * 64 == 63 * Uint32Modulus + WrappedRate;
    } else {
      assert (rate - 1) % Uint32Modulus == rate - 1;
      assert 0 <= (rate - 1) * 64 < Uint32Modulus;
    }
  }

  lemma RateBits(msg: seq<byte>)
    requires |msg| >= 6
    ensures ReadBits(msg, 36, 1) == (msg[4] / 8) % 2
    ensures ReadBits(msg, 37, 9) == ((msg[4] % 8) as int) * 64 + (msg[5] / 4) as int
  {
    ReadOneBit(msg, 4, 4);
    ReadBitsSplit(msg, 37, 3, 6);
    LowField(msg, 4, 3);
    TopField(msg, 5, 6);
    assert Pow2(2) == 4 && Pow2(3) == 8 && Pow2(6) == 64;
  }

  /** `DeltaBarometric`: the GNSS minus barometric altitude difference, 25 * (dAlt - 1)
      feet, negative when the sign bit (data bit 48) is set, 0 when dAlt is 0. */
  function DeltaBarometric(m: Frame): (d: int)
    requires WellSized(m)
    ensures DataField(m, 49, 7) == 0 ==> d == 0
    ensures DataField(m, 49, 7) > 0 ==>
              d == (if DataBit(m, 48) then -25 else 25) * (DataField(m, 49, 7) - 1)
    ensures -3150 <= d <= 3150
  {
    var msg := LongMessage.Message(m);
    DeltaBits(msg);
    var data := (msg[6] % 128) as int;
    if data == 0 then 0
    else
      var absoluteDelta := 25 * (data - 1);
      if msg[6] / 128 != 0 then -absoluteDelta else absoluteDelta
  }

  lemma DeltaBits(msg: seq<byte>)
    requires |msg| >= 7
    ensures ReadBits(msg, 48, 1) == msg[6] / 128
    ensures ReadBits(msg, 49, 7) == msg[6] % 128
  {
    ReadOneBit(msg, 6, 0);
    LowField(msg, 6, 7);
    assert Pow2(7) == 128;
  }

  // ---------------------------------------------------------------------------
  // Speed

  /** `groundSpeedVector`: each component is its velocity minus one, negated and scaled
      by `factor` when its direction bit is set. */
  function GroundSpeedVector(m: Frame, factor: int): (v: (int, int))
    requires WellSized(m)
    ensures !DataBit(m, 13) ==> v.0 == DataField(m, 14, 10) - 1
    ensures DataBit(m, 13) ==> v.0 == -factor * (DataField(m, 14, 10) - 1)
    ensures !DataBit(m, 24) ==> v.1 == DataField(m, 25, 10) - 1
    ensures DataBit(m, 24) ==> v.1 == -factor * (DataField(m, 25, 10) - 1)
  {
    var f := SubTypeFields(m);
    var speedX := f.value1 - 1;
    var speedY := f.value2 - 1;
    (if f.flag1 then -factor * speedX else speedX, if f.flag2 then -factor * speedY else speedY)
  }

  /** `airSpeedPolarVector`: the air speed times `factor`, and the heading in degrees
      (HDG * 360 / 1024) when the heading status bit is set, -1 otherwise. */
  function AirSpeedPolarVector(m: Frame, factor: int): (v: (real, real))
    requires WellSized(m)
    ensures v.0 == (factor * (DataField(m, 25, 10) - 1)) as real
    ensures DataBit(m, 13) ==> v.1 == (360.0 / 1024.0) * (DataField(m, 14, 10) as real)
    ensures DataBit(m, 13) ==> 0.0 <= v.1 < 360.0
    ensures !DataBit(m, 13) ==> v.1 == -1.0
  {
    var f := SubTypeFields(m);
    var heading := if f.flag1 then (360.0 / 1024.0) * (f.value1 as real) else -1.0;
    ((factor * (f.value2 - 1)) as real, heading)
  }

  /** The 22 subtype-specific bits are all zero (no velocity information). */
  predicate NoVelocity(m: Frame)
    requires WellSized(m)
  {
    DataField(m, 13, 22) == 0
  }

  /** `Speed`: (speed, heading). No velocity information or an unknown subtype gives
      (-1, -1). Subtypes 1 and 2 turn the ground speed vector (factor 1 or 2) into
      speed and track with the floating-point functions `polar`; subtypes 3 and 4 give
      the air speed vector (factor 1 or 4). */
  function Speed(m: Frame, polar: (real, real) -> (real, real)): (r: (real, real))
    requires WellSized(m)
    ensures NoVelocity(m) ==> r == (-1.0, -1.0)
    ensures !NoVelocity(m) && SubType(m) == 1 ==>
              r == polar(GroundSpeedVector(m, 1).0 as real, GroundSpeedVector(m, 1).1 as real)
    ensures !NoVelocity(m) && SubType(m) == 2 ==>
              r == polar(GroundSpeedVector(m, 2).0 as real, GroundSpeedVector(m, 2).1 as real)
    ensures !NoVelocity(m) && SubType(m) == 3 ==> r == AirSpeedPolarVector(m, 1)
    ensures !NoVelocity(m) && SubType(m) == 4 ==> r == AirSpeedPolarVector(m, 4)
    ensures SubType(m) == 0 || SubType(m) > 4 ==> r == (-1.0, -1.0)
  {
    var msg := LongMessage.Message(m);
    SpecificZero(msg);
    if msg[1] % 8 == 0 && msg[2] == 0 && msg[3] == 0 && msg[4] / 32 == 0 then
      (-1.0, -1.0)
    else
      var subType := SubType(m);
      if subType == 1 then
        var v := GroundSpeedVector(m, 1);
        polar(v.0 as real, v.1 as real)
      else if subType == 2 then
        var v := GroundSpeedVector(m, 2);
        polar(v.0 as real, v.1 as real)
      else if subType == 3 then
        AirSpeedPolarVector(m, 1)
      else if subType == 4 then
        AirSpeedPolarVector(m, 4)
      else
        (-1.0, -1.0)
  }

  /** The source's test of the specific bits, byte by byte, is the test of all 22 bits. */
  lemma SpecificZero(msg: seq<byte>)
    requires |msg| >= 5
    ensures ReadBits(msg, 13, 22) == 0 <==>
              msg[1] % 8 == 0 && msg[2] == 0 && msg[3] == 0 && msg[4] / 32 == 0
  {
    SpecificBytes(msg);
    SpecificSplits(msg);
  }

  lemma SpecificBytes(msg: seq<byte>)
    requires |msg| >= 5
    ensures ReadBits(msg, 13, 3) == msg[1] % 8 && ReadBits(msg, 16, 8) == msg[2]
    ensures ReadBits(msg, 24, 8) == msg[3] && ReadBits(msg, 32, 3) == msg[4] / 32
  {
    LowField(msg, 1, 3);
    ReadByte(msg, 2);
    ReadByte(msg, 3);
    TopField(msg, 4, 3);
    assert Pow2(3) == 8 && Pow2(5) == 32;
  }

  lemma SpecificSplits(msg: seq<byte>)
    requires |msg| >= 5
    ensures ReadBits(msg, 13, 22) == 0 <==>
              ReadBits(msg, 13, 3) == 0 && ReadBits(msg, 16, 8) == 0
              && ReadBits(msg, 24, 8) == 0 && ReadBits(msg, 32, 3) == 0
  {
    SplitZero(msg, 13, 3, 19);
    SplitZero(msg, 16, 8, 11);
    SplitZero(msg, 24, 8, 3);
  }

  /** A field is zero iff both of its consecutive parts are. */
  lemma SplitZero(bs: seq<byte>, off: nat, a: nat, c: nat)
    requires off + a + c <= 8 * |bs|
    ensures ReadBits(bs, off, a + c) == 0 <==> ReadBits(bs, off, a) == 0 && ReadBits(bs, off + a, c) == 0
  {
    ReadBitsSplit(bs, off, a, c);
    ZeroSum(ReadBits(bs, off, a), Pow2(c), ReadBits(bs, off + a, c));
  }

  lemma ZeroSum(a: nat, p: nat, b: nat)
    requires p >= 1
    ensures a * p + b == 0 <==> a == 0 && b == 0
  {
    if a > 0 {
      MulAtLeast(a, p);
    }
  }

  // ---------------------------------------------------------------------------
  // Examples

  /** Data 99 44 09 94 08 38 17, as in frame 8D485020994409940838175B284F: a
      subsonic ground speed message descending at 832 ft/min, GNSS 550 ft above
      barometric altitude. */
  lemma GroundSpeedExample(m: Frame)
    requires WellSized(m)
    requires m[4] == 0x99 && m[5] == 0x44 && m[6] == 0x09 && m[7] == 0x94
    requires m[8] == 0x08 && m[9] == 0x38 && m[10] == 0x17
    ensures VerticalRate(m) == -832 && DeltaBarometric(m) == 550
    ensures IsGroundSpeed(m) && !IsTrueAirSpeed(m)
  {
    var msg := LongMessage.Message(m);
    assert msg[0] == 0x99 && msg[4] == 0x08 && msg[5] == 0x38 && msg[6] == 0x17;
  }

  /** Data 9B 06 B6 AF 18 94 00, as in frame 8DA05F219B06B6AF189400CBC33F: a
      subsonic true air speed of 375 kt on heading 243.984375 degrees, descending at
      2304 ft/min, no altitude difference. */
  lemma AirSpeedExample(m: Frame, polar: (real, real) -> (real, real))
    requires WellSized(m)
    requires m[4] == 0x9B && m[5] == 0x06 && m[6] == 0xB6 && m[7] == 0xAF
    requires m[8] == 0x18 && m[9] == 0x94 && m[10] == 0x00
    ensures VerticalRate(m) == -2304 && DeltaBarometric(m) == 0
    ensures !IsGroundSpeed(m) && IsTrueAirSpeed(m)
    ensures Speed(m, polar) == (375.0, 243.984375)
  {
    var msg := LongMessage.Message(m);
    assert msg[0] == 0x9B && msg[1] == 0x06 && msg[2] == 0xB6 && msg[3] == 0xAF;
    assert msg[4] == 0x18 && msg[5] == 0x94 && msg[6] == 0x00;
  }

  function Name(m: Frame): (s: string)
    ensures s == AirborneVelocityName
  {
    AirborneVelocityName
  }
}
