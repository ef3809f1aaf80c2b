// The aircraft identification message of an extended squitter (type codes 1 to 4,
// RTCA DO-260B section 2.2.3.2.5): data byte 0 holds TC(5) CA(3), data bytes 1 to 6
// hold eight 6-bit characters of the call sign.

module Identification {
  import opened Bits
  import opened ModeS
  import LongMessage

  /** The 6-bit character set: index -> character, '#' for unassigned codes. */
  const AsciiTable: string := "#ABCDEFGHIJKLMNOPQRSTUVWXYZ##### ###############0123456789######"

  const IdentificationName: string := "identification"

  lemma AsciiTableSize()
    ensures |AsciiTable| == 64
  {
  }

  /** The 6-bit group `k` of the 48 call-sign bits (data bits 8 to 55). */
  function CharCode(msg: seq<byte>, k: nat): (c: nat)
    requires |msg| >= 7 && k < 8
    ensures c < 64
  {
    ReadBitsBound(msg, 8 + 6 * k, 6);
    ReadBits(msg, 8 + 6 * k, 6)
  }

  /** `Identification.String`: the eight call-sign characters, each extracted with the
      shifts and masks of the source, four characters per three bytes. */
  function Callsign(m: Frame): (s: string)
    requires |m| >= 11
    ensures |s| == 8
    ensures forall k :: 0 <= k < 8 ==> s[k] in AsciiTable
  {
    var msg := LongMessage.Message(m);
    [ AsciiTable[msg[1] / 4]
    , AsciiTable[(msg[1] % 4) * 16 + msg[2] / 16]
    , AsciiTable[(msg[2] % 16) * 4 + msg[3] / 64]
    , AsciiTable[msg[3] % 64]
    , AsciiTable[msg[4] / 4]
    , AsciiTable[(msg[4] % 4) * 16 + msg[5] / 16]
    , AsciiTable[(msg[5] % 16) * 4 + msg[6] / 64]
    , AsciiTable[msg[6] % 64] ]
  }

  /** Character `k` of the call sign is the table entry of the `k`-th 6-bit group of
      data bits 8 to 55, read most significant bit first. */
  lemma CallsignGroups(m: Frame)
    requires |m| >= 11
    ensures var msg := LongMessage.Message(m);
      Callsign(m) == [ AsciiTable[CharCode(msg, 0)], AsciiTable[CharCode(msg, 1)]
                     , AsciiTable[CharCode(msg, 2)], AsciiTable[CharCode(msg, 3)]
                     , AsciiTable[CharCode(msg, 4)], AsciiTable[CharCode(msg, 5)]
                     , AsciiTable[CharCode(msg, 6)], AsciiTable[CharCode(msg, 7)] ]
  {
    var msg := LongMessage.Message(m);
    CharGroups(msg, 1);
    CharGroups(msg, 4);
  }

  /** Four 6-bit groups packed into the three bytes starting at byte `i`. */
  lemma CharGroups(msg: seq<byte>, i: nat)
    requires i + 3 <= |msg|
    ensures ReadBits(msg, 8 * i, 6) == msg[i] / 4
    ensures ReadBits(msg, 8 * i + 6, 6) == (msg[i] % 4) * 16 + msg[i + 1] / 16
    ensures ReadBits(msg, 8 * i + 12, 6) == (msg[i + 1] % 16) * 4 + msg[i + 2] / 64
    ensures ReadBits(msg, 8 * i + 18, 6) == msg[i + 2] % 64
  {
    TopBits(msg, i);
    StraddleHigh(msg, i);
    StraddleLow(msg, i + 1);
    LowBits(msg, i + 2);
  }

  /** A group made of the two low bits of byte `i` and the four top bits of byte `i + 1`. */
  lemma StraddleHigh(msg: seq<byte>, i: nat)
    requires i + 2 <= |msg|
    ensures ReadBits(msg, 8 * i + 6, 6) == (msg[i] % 4) * 16 + msg[i + 1] / 16
  {
    LowBits(msg, i);
    TopBits(msg, i + 1);
    assert Pow2(4) == 16;
    ReadBitsSplit(msg, 8 * i + 6, 2, 4);
  }

  /** A group made of the four low bits of byte `i` and the two top bits of byte `i + 1`. */
  lemma StraddleLow(msg: seq<byte>, i: nat)
    requires i + 2 <= |msg|
    ensures ReadBits(msg, 8 * i + 4, 6) == (msg[i] % 16) * 4 + msg[i + 1] / 64
  {
    LowBits(msg, i);
    TopBits(msg, i + 1);
    assert Pow2(2) == 4;
    ReadBitsSplit(msg, 8 * i + 4, 4, 2);
  }

  /** The top two, four and six bits of byte `i`. */
  lemma TopBits(msg: seq<byte>, i: nat)
    requires i < |msg|
    ensures ReadBits(msg, 8 * i, 2) == msg[i] / 64
    ensures ReadBits(msg, 8 * i, 4) == msg[i] / 16
    ensures ReadBits(msg, 8 * i, 6) == msg[i] / 4
  {
    TopField(msg, i, 2);
    TopField(msg, i, 4);
    TopField(msg, i, 6);
    assert Pow2(2) == 4 && Pow2(4) == 16 && Pow2(6) == 64;
  }

  /** The low two, four and six bits of byte `i`. */
  lemma LowBits(msg: seq<byte>, i: nat)
    requires i < |msg|
    ensures ReadBits(msg, 8 * i + 6, 2) == msg[i] % 4
    ensures ReadBits(msg, 8 * i + 4, 4) == msg[i] % 16
    ensures ReadBits(msg, 8 * i + 2, 6) == msg[i] % 64
  {
    LowField(msg, i, 2);
    LowField(msg, i, 4);
    LowField(msg, i, 6);
    assert Pow2(2) == 4 && Pow2(4) == 16 && Pow2(6) == 64;
  }

  /** The emitter category: the low three bits of data byte 0. */
  function Category(m: Frame): (ca: nat)
    requires |m| >= 5
    ensures ca < 8
    ensures ca == ReadBits(LongMessage.Message(m), 5, 3)
    ensures ca == SubTypeCode(m)
  {
    ByteField(LongMessage.Message(m), 0, 5, 3);
    LongMessage.Message(m)[0] % 8
  }

  const NoInformation: string := "No category information"
  const SurfaceEmergencyVehicle: string := "Surface emergency vehicle"
  const SurfaceServiceVehicle: string := "Surface service vehicle"
  const GroundObstruction: string := "Ground obstruction"
  const GliderSailplane: string := "Glider, sailplane"
  const LighterThanAir: string := "Lighter-than-air"
  const ParachutistSkydiver: string := "Parachutist, skydiver"
  const Ultralight: string := "Ultralight, hang-glider, paraglider"
  const Reserved: string := "Reserved"
  const UnmannedAerialVehicle: string := "Unmanned aerial vehicle"
  const SpaceVehicle: string := "Space or transatmospheric vehicle"
  const Light: string := "Light (less than 7000 kg)"
  const Medium1: string := "Medium 1 (between 7000 kg and 34000 kg)"
  const Medium2: string := "Medium 2 (between 34000 kg to 136000 kg)"
  const HighVortexAircraft: string := "High vortex aircraft"
  const Heavy: string := "Heavy (larger than 136000 kg)"
  const HighPerformance: string := "High performance (>5 g acceleration) and high speed (>400 kt)"
  const Rotorcraft: string := "Rotorcraft"

  /** Every description `CategoryString` can return. */
  const CategoryNames: set<string> :=
    { NoInformation, SurfaceEmergencyVehicle, SurfaceServiceVehicle, GroundObstruction,
      GliderSailplane, LighterThanAir, ParachutistSkydiver, Ultralight, Reserved,
      UnmannedAerialVehicle, SpaceVehicle, Light, Medium1, Medium2, HighVortexAircraft,
      Heavy, HighPerformance, Rotorcraft }

  /** The description of a whole TC/CA byte; a category is named only for type codes 2
      to 4 with a non-zero category, except TC 2 / CA 2. */
  function CategoryName(b: byte): (s: string)
    ensures s in CategoryNames
    ensures s == NoInformation <==>
              !(2 <= b / 8 <= 4 && b % 8 != 0 && !(b / 8 == 2 && b % 8 == 2))
  {
    match b
    case 17 => SurfaceEmergencyVehicle
    case 19 => SurfaceServiceVehicle
    case 20 | 21 | 22 | 23 => GroundObstruction
    case 25 => GliderSailplane
    case 26 => LighterThanAir
    case 27 => ParachutistSkydiver
    case 28 => Ultralight
    case 29 => Reserved
    case 30 => UnmannedAerialVehicle
    case 31 => SpaceVehicle
    case 33 => Light
    case 34 => Medium1
    case 35 => Medium2
    case 36 => HighVortexAircraft
    case 37 => Heavy
    case 38 => HighPerformance
    case 39 => Rotorcraft
    case _ => NoInformation
  }

  /** The named categories of type code 2 (byte 2·8 + CA): surface vehicles and
      obstructions. */
  lemma CategoryTableSurface()
    ensures CategoryName(2 * 8 + 1) == SurfaceEmergencyVehicle
    ensures CategoryName(2 * 8 + 3) == SurfaceServiceVehicle
    ensures CategoryName(2 * 8 + 4) == CategoryName(2 * 8 + 5) == GroundObstruction
    ensures CategoryName(2 * 8 + 6) == CategoryName(2 * 8 + 7) == GroundObstruction
  {
  }

  /** The named categories of type code 3 (byte 3·8 + CA). */
  lemma CategoryTableLight()
    ensures CategoryName(3 * 8 + 1) == GliderSailplane
    ensures CategoryName(3 * 8 + 2) == LighterThanAir
    ensures CategoryName(3 * 8 + 3) == ParachutistSkydiver
    ensures CategoryName(3 * 8 + 4) == Ultralight
    ensures CategoryName(3 * 8 + 5) == Reserved
    ensures CategoryName(3 * 8 + 6) == UnmannedAerialVehicle
    ensures CategoryName(3 * 8 + 7) == SpaceVehicle
  {
  }

  /** The named categories of type code 4 (byte 4·8 + CA) up to CA 3: aircraft by
      weight. */
  lemma CategoryTableAircraft()
    ensures CategoryName(4 * 8 + 1) == Light
    ensures CategoryName(4 * 8 + 2) == Medium1
    ensures CategoryName(4 * 8 + 3) == Medium2
  {
  }

  /** The named categories of type code 4 from CA 4 on: wake, weight, performance and
      rotorcraft. */
  lemma CategoryTableHeavy()
    ensures CategoryName(4 * 8 + 4) == HighVortexAircraft
    ensures CategoryName(4 * 8 + 5) == Heavy
    ensures CategoryName(4 * 8 + 6) == HighPerformance
    ensures CategoryName(4 * 8 + 7) == Rotorcraft
  {
  }

  /** `Identification.CategoryString`: the description of data byte 0, named exactly for
      type codes 2 to 4 with a non-zero category other than TC 2 / CA 2. */
  function CategoryString(m: Frame): (s: string)
    requires |m| >= 5
    ensures s in CategoryNames
    ensures s == NoInformation <==>
              !(2 <= TypeCode(m) <= 4 && Category(m) != 0 && !(TypeCode(m) == 2 && Category(m) == 2))
  {
    CategoryName(LongMessage.Message(m)[0])
  }

  /** Every description is returned for some byte: together with `CategoryName`'s
      contract, the outcomes of `CategoryString` are exactly `CategoryNames`. */
  lemma CategoryNamesReached(s: string)
    requires s in CategoryNames
    ensures exists b: byte :: CategoryName(b) == s
  {
    if s == NoInformation { assert CategoryName(0) == s; }
    else if s == SurfaceEmergencyVehicle { assert CategoryName(17) == s; }
    else if s == SurfaceServiceVehicle { assert CategoryName(19) == s; }
    else if s == GroundObstruction { assert CategoryName(20) == s; }
    else if s == GliderSailplane { assert CategoryName(25) == s; }
    else if s == LighterThanAir { assert CategoryName(26) == s; }
    else if s == ParachutistSkydiver { assert CategoryName(27) == s; }
    else if s == Ultralight { assert CategoryName(28) == s; }
    else if s == Reserved { assert CategoryName(29) == s; }
    else if s == UnmannedAerialVehicle { assert CategoryName(30) == s; }
    else if s == SpaceVehicle { assert CategoryName(31) == s; }
    else if s == Light { assert CategoryName(33) == s; }
    else if s == Medium1 { assert CategoryName(34) == s; }
    else if s == Medium2 { assert CategoryName(35) == s; }
    else if s == HighVortexAircraft { assert CategoryName(36) == s; }
    else if s == Heavy { assert CategoryName(37) == s; }
    else if s == HighPerformance { assert CategoryName(38) == s; }
    else { assert CategoryName(39) == s; }
  }

  function Name(m: Frame): (s: string)
    ensures s == IdentificationName
  {
    IdentificationName
  }
}
