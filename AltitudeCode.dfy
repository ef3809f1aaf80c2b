// The 13-bit AC altitude code of surveillance and Comm-B replies (ICAO Annex 10
// Volume IV, section 3.1.2.6.5.4). Bit layout, most significant first:
// C1 A1 C2 A2 C4 A4 M B1 Q B2 D2 B4 D4. The metric (M) form is read before the
// 25-foot (Q) form; the Gillham 100-foot form is not decoded.

module AltitudeCode {

  const MeterToFeet: real := 3.28084

  /** The eleven code bits without M and Q, in their order: the number of 25-foot
      increments above -1000 ft when Q is set. */
  function Feet25Units(d: bv16): (n: nat)
    ensures n < 2048
  {
    ((d & 0x0F) + (((d & 0x20) >> 5) << 4) + ((d & 0x1F80) >> 2)) as nat
  }

  /** The metric value read when M is set. */
  function MetricUnits(d: bv16): (n: nat)
    ensures n < 4096
  {
    ((d & 0x27) + ((d & 0xF80) >> 1)) as nat
  }

  /** `altitudeFrom13Bits`: the altitude in feet, or -1 when all bits are zero or when
      neither M nor Q is set. */
  function AltitudeFrom13Bits(altitudeData: bv16): (r: real)
    ensures altitudeData & 0x1FFF == 0 ==> r == -1.0
    ensures altitudeData & 0x1FFF != 0 && altitudeData & 0x40 != 0 ==>
              r == (MetricUnits(altitudeData) as real) * MeterToFeet
    ensures altitudeData & 0x40 == 0 && altitudeData & 0x10 != 0 ==>
              r == 25.0 * (Feet25Units(altitudeData) as real) - 1000.0 && -1000.0 <= r <= 50175.0
    ensures altitudeData & 0x40 == 0 && altitudeData & 0x10 == 0 ==> r == -1.0
  {
    var bitM := (altitudeData & 0x0040) >> 6;
    var bitQ := (altitudeData & 0x0010) >> 4;
    if altitudeData & 0x1FFF == 0 then
      -1.0
    else if bitM == 1 then
      (MetricUnits(altitudeData) as real) * MeterToFeet
    else if bitQ == 1 then
      (Feet25Units(altitudeData) as real) * 25.0 - 1000.0
    else
      -1.0
  }

  /** Bits above bit 12 never influence the altitude. */
  lemma AltitudeIgnoresHighBits(d: bv16)
    ensures AltitudeFrom13Bits(d) == AltitudeFrom13Bits(d & 0x1FFF)
  {
  }

  /** The code 0x1718 (Q set, M clear) is 36000 ft. */
  lemma AltitudeExample()
    ensures AltitudeFrom13Bits(0x1718) == 36000.0
  {
    assert Feet25Units(0x1718) == 1480;
  }
}
