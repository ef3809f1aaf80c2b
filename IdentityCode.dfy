// The 13-bit identity (squawk) code of surveillance and Comm-B replies (ICAO
// Annex 10 Volume IV, section 3.1.2.6.7.1). Bit layout, most significant first:
// C1 A1 C2 A2 C4 A4 X B1 D1 B2 D2 B4 D4; each octal digit is bit1 + 2 bit2 + 4 bit4.

module IdentityCode {
  import Bits

  /** `IdentityFrom12Bits`: the squawk as the decimal number ABCD. The source adds the
      digit terms in 16 bits; the total is at most 7777, so that sum never wraps and is
      written here on unbounded integers. */
  function IdentityFrom12Bits(idData: bv16): (r: nat)
    ensures r <= 7777
  {
    var bitC1 := (idData & 0x1000) >> 12;
    var bitA1 := (idData & 0x0800) >> 11;
    var bitC2 := (idData & 0x0400) >> 10;
    var bitA2 := (idData & 0x0200) >> 9;
    var bitC4 := (idData & 0x0100) >> 8;
    var bitA4 := (idData & 0x0080) >> 7;
    var bitB1 := (idData & 0x0020) >> 5;
    var bitD1 := (idData & 0x0010) >> 4;
    var bitB2 := (idData & 0x0008) >> 3;
    var bitD2 := (idData & 0x0004) >> 2;
    var bitB4 := (idData & 0x0002) >> 1;
    var bitD4 := idData & 0x0001;
    var d, c, b, a := Octal(bitD1, bitD2, bitD4), Octal(bitC1, bitC2, bitC4),
                      Octal(bitB1, bitB2, bitB4), Octal(bitA1, bitA2, bitA4);
    d + 10 * c + 100 * b + 1000 * a
  }

  /** `bit1 + (bit2 << 1) + (bit4 << 2)` in 16 bits: one octal digit. */
  function Octal(bit1: bv16, bit2: bv16, bit4: bv16): (r: nat)
    requires bit1 <= 1 && bit2 <= 1 && bit4 <= 1
    ensures r < 8
  {
    (bit1 + (bit2 << 1) + (bit4 << 2)) as nat
  }

  /** The code layout of the squawk with octal digits a b c d. */
  function EncodeIdentity(a: bv16, b: bv16, c: bv16, d: bv16): (code: bv16)
    requires a < 8 && b < 8 && c < 8 && d < 8
    ensures code & 0xE040 == 0
  {
    ((c & 1) << 12) | ((a & 1) << 11) | (((c >> 1) & 1) << 10) | (((a >> 1) & 1) << 9)
    | (((c >> 2) & 1) << 8) | (((a >> 2) & 1) << 7) | ((b & 1) << 5) | ((d & 1) << 4)
    | (((b >> 1) & 1) << 3) | (((d >> 1) & 1) << 2) | (((b >> 2) & 1) << 1) | ((d >> 2) & 1)
  }

  /** Decoding a laid-out squawk gives back its four digits. */
  lemma IdentityRoundTrip(a: bv16, b: bv16, c: bv16, d: bv16)
    requires a < 8 && b < 8 && c < 8 && d < 8
    ensures IdentityFrom12Bits(EncodeIdentity(a, b, c, d))
         == 1000 * (a as int) + 100 * (b as int) + 10 * (c as int) + d as int
  {
    EncodedDigits(a, b, c, d);
    IdentityAsDigits(EncodeIdentity(a, b, c, d));
  }

  /** The digits read back from a laid-out squawk are the ones laid out. */
  lemma EncodedDigits(a: bv16, b: bv16, c: bv16, d: bv16)
    requires a < 8 && b < 8 && c < 8 && d < 8
    ensures var x := EncodeIdentity(a, b, c, d);
            DigitA(x) == a && DigitB(x) == b && DigitC(x) == c && DigitD(x) == d
  {
  }

  /** The octal digits A, B, C and D of a code. */
  function DigitA(x: bv16): bv16 { ((x >> 11) & 1) | (((x >> 9) & 1) << 1) | (((x >> 7) & 1) << 2) }
  function DigitB(x: bv16): bv16 { ((x >> 5) & 1) | (((x >> 3) & 1) << 1) | (((x >> 1) & 1) << 2) }
  function DigitC(x: bv16): bv16 { ((x >> 12) & 1) | (((x >> 10) & 1) << 1) | (((x >> 8) & 1) << 2) }
  function DigitD(x: bv16): bv16 { ((x >> 4) & 1) | (((x >> 2) & 1) << 1) | ((x & 1) << 2) }

  /** Every code is the layout of its own digits. */
  lemma IdentityAsDigits(x: bv16)
    ensures DigitA(x) < 8 && DigitB(x) < 8 && DigitC(x) < 8 && DigitD(x) < 8
    ensures IdentityFrom12Bits(x) == 1000 * (DigitA(x) as int) + 100 * (DigitB(x) as int)
                                     + 10 * (DigitC(x) as int) + DigitD(x) as int
  {
    OctalA(x);
    OctalB(x);
    OctalC(x);
    OctalD(x);
  }

  lemma OctalA(x: bv16)
    ensures DigitA(x) < 8
    ensures Octal((x & 0x0800) >> 11, (x & 0x0200) >> 9, (x & 0x0080) >> 7) == DigitA(x) as nat
  {
    assert ((x & 0x0800) >> 11) + (((x & 0x0200) >> 9) << 1) + (((x & 0x0080) >> 7) << 2) == DigitA(x);
  }

  lemma OctalB(x: bv16)
    ensures DigitB(x) < 8
    ensures Octal((x & 0x0020) >> 5, (x & 0x0008) >> 3, (x & 0x0002) >> 1) == DigitB(x) as nat
  {
    assert ((x & 0x0020) >> 5) + (((x & 0x0008) >> 3) << 1) + (((x & 0x0002) >> 1) << 2) == DigitB(x);
  }

  lemma OctalC(x: bv16)
    ensures DigitC(x) < 8
    ensures Octal((x & 0x1000) >> 12, (x & 0x0400) >> 10, (x & 0x0100) >> 8) == DigitC(x) as nat
  {
    assert ((x & 0x1000) >> 12) + (((x & 0x0400) >> 10) << 1) + (((x & 0x0100) >> 8) << 2) == DigitC(x);
  }

  lemma OctalD(x: bv16)
    ensures DigitD(x) < 8
    ensures Octal((x & 0x0010) >> 4, (x & 0x0004) >> 2, x & 0x0001) == DigitD(x) as nat
  {
    assert ((x & 0x0010) >> 4) + (((x & 0x0004) >> 2) << 1) + ((x & 0x0001) << 2) == DigitD(x);
  }

  /** Every decimal digit of a decoded squawk is an octal digit. */
  lemma IdentityDigits(x: bv16)
    ensures var r := IdentityFrom12Bits(x);
            r % 10 < 8 && (r / 10) % 10 < 8 && (r / 100) % 10 < 8 && r / 1000 < 8
  {
    IdentityAsDigits(x);
    var a: nat, b: nat, c: nat, d: nat := DigitA(x) as nat, DigitB(x) as nat, DigitC(x) as nat, DigitD(x) as nat;
    DecimalOfOctal(IdentityFrom12Bits(x), a, b, c, d);
  }

  /** The decimal digits of `1000a + 100b + 10c + d` for octal digits a, b, c, d. */
  lemma DecimalOfOctal(r: nat, a: nat, b: nat, c: nat, d: nat)
    requires a < 8 && b < 8 && c < 8 && d < 8
    requires r == 1000 * a + 100 * b + 10 * c + d
    ensures r % 10 == d && (r / 10) % 10 == c && (r / 100) % 10 == b && r / 1000 == a
  {
    Bits.DivUnique(r, 10, 100 * a + 10 * b + c, d);
    Bits.DivUnique(100 * a + 10 * b + c, 10, 10 * a + b, c);
    Bits.DivUnique(r, 100, 10 * a + b, 10 * c + d);
    Bits.DivUnique(10 * a + b, 10, a, b);
    Bits.DivUnique(r, 1000, a, 100 * b + 10 * c + d);
  }

  /** The X bit and the bits above bit 12 are never read. */
  lemma IdentityIgnoresUnusedBits(x: bv16)
    ensures IdentityFrom12Bits(x) == IdentityFrom12Bits(x & 0x1FBF)
  {
  }

  lemma IdentityZero()
    ensures IdentityFrom12Bits(0) == 0
  {
  }

  /** The code 0x116D is squawk 0356. */
  lemma IdentityExample()
    ensures IdentityFrom12Bits(0x116D) == 356
  {
  }
}
