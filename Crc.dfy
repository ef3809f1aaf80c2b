// The Mode S parity engine: a CRC-24 with generator 0x1FFF409 (ICAO Annex 10
// Volume IV, section 3.1.2.3.3), computed either by bit-serial long division
// over a copied buffer or by XOR-ing pre-computed masks from a 256-entry table.
//
// Bit strings are read most significant bit first. A 24-bit CRC value is a
// natural number below 2^24; XOR of two such values is defined through their
// 24-bit representations.

module Crc {
  import opened Bits

  /** The generator polynomial, 25 bits: x^24 + ... + x^3 + 1. */
  const PolynomCRC: nat := 0x01FFF409

  /** Number of entries in a CRC table (one per bit of a 32-byte frame). */
  const CrcSize: nat := 256

  // ---------------------------------------------------------------------------
  // Words: unsigned numbers and their fixed-width bit strings

  /** The `n` low bits of `x`, most significant first. */
  function ToBits(x: nat, n: nat): (r: seq<bool>)
    ensures |r| == n
  {
    if n == 0 then [] else ToBits(x / 2, n - 1) + [x % 2 == 1]
  }

  lemma {:induction false} ToBitsOfBitsToNat(w: seq<bool>)
    ensures ToBits(BitsToNat(w), |w|) == w
  {
    if w != [] {
      var w', b := w[..|w| - 1], w[|w| - 1];
      BitsToNatSnoc(w', b);
      assert w == w' + [b];
      ToBitsOfBitsToNat(w');
    }
  }

  lemma {:induction false} BitsToNatOfToBits(x: nat, n: nat)
    requires x < Pow2(n)
    ensures BitsToNat(ToBits(x, n)) == x
  {
    if n > 0 {
      BitsToNatOfToBits(x / 2, n - 1);
      BitsToNatSnoc(ToBits(x / 2, n - 1), x % 2 == 1);
    }
  }

  /** Exclusive or of two 24-bit values (the `^` of the table-driven checksum). */
  function XorWord(a: nat, b: nat): (r: nat)
    ensures r < Pow2(24)
  {
    BitsToNatBound(Xor(ToBits(a, 24), ToBits(b, 24)));
    BitsToNat(Xor(ToBits(a, 24), ToBits(b, 24)))
  }

  /** On values given by their 24 bits, XorWord is the bitwise exclusive or. */
  lemma XorWordBits(u: seq<bool>, v: seq<bool>)
    requires |u| == 24 && |v| == 24
    ensures XorWord(BitsToNat(u), BitsToNat(v)) == BitsToNat(Xor(u, v))
  {
    ToBitsOfBitsToNat(u);
    ToBitsOfBitsToNat(v);
  }

  /** XOR-ing the same 24-bit value twice gives the original value back. */
  lemma XorWordCancel(c: nat, a: nat)
    requires c < Pow2(24) && a < Pow2(24)
    ensures XorWord(XorWord(c, a), c) == a
  {
    var u, v := ToBits(c, 24), ToBits(a, 24);
    ToBitsOfBitsToNat(Xor(u, v));
    XorCancel(u, v);
    BitsToNatOfToBits(a, 24);
  }

  /** Bitwise, XOR-ing with `u` twice cancels. */
  lemma XorCancel(u: seq<bool>, v: seq<bool>)
    requires |u| == |v|
    ensures Xor(Xor(u, v), u) == v
  {
    var w := Xor(Xor(u, v), u);
    forall i | 0 <= i < |v|
      ensures w[i] == v[i]
    {
    }
  }

  /** The `^` of two `uint32` values: the exclusive or of their 32 bits. */
  function Uint32Xor(a: nat, b: nat): (r: nat)
    ensures r < Pow2(32)
  {
    BitsToNatBound(Xor(ToBits(a, 32), ToBits(b, 32)));
    BitsToNat(Xor(ToBits(a, 32), ToBits(b, 32)))
  }

  /** A value below 2^n written on n + k bits is k zeros followed by its n bits. */
  lemma {:induction false} ToBitsWiden(x: nat, n: nat, k: nat)
    requires x < Pow2(n)
    ensures ToBits(x, n + k) == Zeros(k) + ToBits(x, n)
  {
    if n == 0 {
      ToBitsZero(k);
    } else {
      ToBitsWiden(x / 2, n - 1, k);
      assert n + k - 1 == (n - 1) + k;
      assert ToBits(x, n + k) == ToBits(x / 2, (n - 1) + k) + [x % 2 == 1];
    }
  }

  lemma {:induction false} ToBitsZero(k: nat)
    ensures ToBits(0, k) == Zeros(k)
  {
    if k > 0 {
      ToBitsZero(k - 1);
      assert Zeros(k) == Zeros(k - 1) + [false];
    }
  }

  /** On 24-bit values, XorWord is Go's full `uint32` exclusive or: the eight top bits
      of both operands are zero, so nothing is cut off. */
  lemma XorWordIsUint32Xor(a: nat, b: nat)
    requires a < Pow2(24) && b < Pow2(24)
    ensures XorWord(a, b) == Uint32Xor(a, b)
  {
    var u, v := ToBits(a, 24), ToBits(b, 24);
    ToBitsWiden(a, 24, 8);
    ToBitsWiden(b, 24, 8);
    XorPadded(u, v, 8);
    PaddedValue(Xor(u, v), 8);
  }

  lemma XorPadded(u: seq<bool>, v: seq<bool>, k: nat)
    requires |u| == |v|
    ensures Xor(Zeros(k) + u, Zeros(k) + v) == Zeros(k) + Xor(u, v)
  {
    var l, r := Xor(Zeros(k) + u, Zeros(k) + v), Zeros(k) + Xor(u, v);
    forall i | 0 <= i < |l|
      ensures l[i] == r[i]
    {
      if i >= k {
        assert (Zeros(k) + u)[i] == u[i - k] && (Zeros(k) + v)[i] == v[i - k];
      }
    }
  }

  /** Leading zero bits do not change a value. */
  lemma PaddedValue(w: seq<bool>, k: nat)
    ensures BitsToNat(Zeros(k) + w) == BitsToNat(w)
  {
    BitsToNatAppend(Zeros(k), w);
    BitsToNatZeros(k);
  }

  // ---------------------------------------------------------------------------
  // Bit-serial long division (the specification of `checksum24`)

  /** The 25 generator bits of `poly` (its low 25 bits), most significant first. */
  function PolyBits(poly: nat): (r: seq<bool>)
    ensures |r| == 25
  {
    ToBits(poly, 25)
  }

  /** The generator's top bit is set, so every division step clears its leading bit. */
  lemma PolynomTopBit()
    ensures PolyBits(PolynomCRC)[0]
  {
    TopBitOfToBits(PolynomCRC, 24);
    Pow2Values();
  }

  lemma {:induction false} TopBitOfToBits(x: nat, n: nat)
    ensures ToBits(x, n + 1)[0] == ((x / Pow2(n)) % 2 == 1)
  {
    if n > 0 {
      TopBitOfToBits(x / 2, n - 1);
      assert ToBits(x, n + 1) == ToBits(x / 2, n) + [x % 2 == 1];
      DivDiv(x, 2, Pow2(n - 1));
    }
  }

  /** `d` with the generator XOR-ed into positions `i .. i+24`. */
  function XorAt(d: seq<bool>, p: seq<bool>, i: nat): (r: seq<bool>)
    requires |p| == 25 && i + 25 <= |d|
    ensures |r| == |d|
  {
    seq(|d|, k requires 0 <= k < |d| => if i <= k < i + 25 then d[k] != p[k - i] else d[k])
  }

  /** One step of the long division: when bit `i` is set, subtract (XOR) the generator there. */
  function Step(d: seq<bool>, p: seq<bool>, i: nat): (r: seq<bool>)
    requires |p| == 25 && i + 25 <= |d|
    ensures |r| == |d|
  {
    if d[i] then XorAt(d, p, i) else d
  }

  /** The buffer after the division steps at positions `0 .. n-1`. */
  function Run(d: seq<bool>, p: seq<bool>, n: nat): (r: seq<bool>)
    requires |p| == 25 && n + 24 <= |d|
    ensures |r| == |d|
  {
    if n == 0 then d else Step(Run(d, p, n - 1), p, n - 1)
  }

  /** The 24-bit remainder of `bits` followed by 24 zero bits. */
  function Remainder(bits: seq<bool>, p: seq<bool>): (r: seq<bool>)
    requires |p| == 25
    ensures |r| == 24
  {
    Run(bits + Zeros(24), p, |bits|)[|bits|..]
  }

  /** The value `checksum24(input, poly)` returns. */
  function SerialChecksum(input: seq<byte>, poly: nat): (r: nat)
    ensures r < Pow2(24)
  {
    BitsToNatBound(Remainder(BytesToBits(input), PolyBits(poly)));
    BitsToNat(Remainder(BytesToBits(input), PolyBits(poly)))
  }

  /** A division step never changes the bits before its position; with the top
      generator bit set it clears the bit at its position. */
  lemma StepPrefix(d: seq<bool>, p: seq<bool>, i: nat)
    requires |p| == 25 && i + 25 <= |d|
    ensures forall k :: 0 <= k < i ==> Step(d, p, i)[k] == d[k]
    ensures p[0] ==> !Step(d, p, i)[i]
  {
  }

  /** Loop invariant of `checksum24`: after `n` steps the first `n` bits are zero. */
  lemma {:induction false} RunClearsPrefix(d: seq<bool>, p: seq<bool>, n: nat)
    requires |p| == 25 && n + 24 <= |d| && p[0]
    ensures forall k :: 0 <= k < n ==> !Run(d, p, n)[k]
  {
    if n > 0 {
      RunClearsPrefix(d, p, n - 1);
      StepPrefix(Run(d, p, n - 1), p, n - 1);
    }
  }

  // ---------------------------------------------------------------------------
  // Linearity of the division

  lemma StepLinear(a: seq<bool>, b: seq<bool>, p: seq<bool>, i: nat)
    requires |p| == 25 && |a| == |b| && i + 25 <= |a|
    ensures Step(Xor(a, b), p, i) == Xor(Step(a, p, i), Step(b, p, i))
  {
  }

  lemma {:induction false} RunLinear(a: seq<bool>, b: seq<bool>, p: seq<bool>, n: nat)
    requires |p| == 25 && |a| == |b| && n + 24 <= |a|
    ensures Run(Xor(a, b), p, n) == Xor(Run(a, p, n), Run(b, p, n))
  {
    if n > 0 {
      RunLinear(a, b, p, n - 1);
      StepLinear(Run(a, p, n - 1), Run(b, p, n - 1), p, n - 1);
    }
  }

  /** The remainder is XOR-linear. */
  lemma RemainderLinear(a: seq<bool>, b: seq<bool>, p: seq<bool>)
    requires |p| == 25 && |a| == |b|
    ensures Remainder(Xor(a, b), p) == Xor(Remainder(a, p), Remainder(b, p))
  {
    assert Xor(a, b) + Zeros(24) == Xor(a + Zeros(24), b + Zeros(24));
    RunLinear(a + Zeros(24), b + Zeros(24), p, |a|);
  }

  lemma {:induction false} RunZeros(p: seq<bool>, m: nat, n: nat)
    requires |p| == 25 && n + 24 <= m
    ensures Run(Zeros(m), p, n) == Zeros(m)
  {
    if n > 0 {
      RunZeros(p, m, n - 1);
    }
  }

  /** The remainder of an all-zero message is zero. */
  lemma RemainderZeros(p: seq<bool>, m: nat)
    requires |p| == 25
    ensures Remainder(Zeros(m), p) == Zeros(24)
  {
    assert Zeros(m) + Zeros(24) == Zeros(m + 24);
    RunZeros(p, m + 24, m);
  }

  // ---------------------------------------------------------------------------
  // Leading zero bits do not change the remainder

  lemma {:induction false} RunLeadingZeros(k: nat, x: seq<bool>, p: seq<bool>, j: nat)
    requires |p| == 25 && j <= k && k + 24 <= k + |x|
    ensures Run(Zeros(k) + x, p, j) == Zeros(k) + x
  {
    if j > 0 {
      RunLeadingZeros(k, x, p, j - 1);
    }
  }

  lemma {:induction false} RunShift(k: nat, x: seq<bool>, p: seq<bool>, j: nat)
    requires |p| == 25 && j + 24 <= |x|
    ensures Run(Zeros(k) + x, p, k + j) == Zeros(k) + Run(x, p, j)
  {
    if j == 0 {
      RunLeadingZeros(k, x, p, k);
    } else {
      RunShift(k, x, p, j - 1);
      var y := Run(x, p, j - 1);
      assert (Zeros(k) + y)[k + j - 1] == y[j - 1];
      if y[j - 1] {
        assert XorAt(Zeros(k) + y, p, k + j - 1) == Zeros(k) + XorAt(y, p, j - 1);
      }
    }
  }

  lemma RemainderLeadingZeros(k: nat, bits: seq<bool>, p: seq<bool>)
    requires |p| == 25
    ensures Remainder(Zeros(k) + bits, p) == Remainder(bits, p)
  {
    assert (Zeros(k) + bits) + Zeros(24) == Zeros(k) + (bits + Zeros(24));
    RunShift(k, bits + Zeros(24), p, |bits|);
  }

  // ---------------------------------------------------------------------------
  // The table-driven checksum

  /** A bit string of length `n` whose only set bit is bit `k`. */
  function Unit(n: nat, k: nat): (r: seq<bool>)
    ensures |r| == n && forall j :: 0 <= j < n ==> r[j] == (j == k)
  {
    seq(n, j => j == k)
  }

  /** The 32-byte buffer of `MakeCRCTable` whose only set bit is bit `idx`. */
  function UnitBytes(idx: nat): (r: seq<byte>)
    requires idx < CrcSize
    ensures |r| == 32
  {
    Pow2Strict(7 - idx % 8, 8);
    seq(32, j => if j == idx / 8 then Pow2(7 - idx % 8) else 0)
  }

  lemma Pow2Strict(a: nat, b: nat)
    requires a < b
    ensures Pow2(a) < Pow2(b)
  {
    Pow2Add(a, b - a);
    assert Pow2(b - a) >= 2;
  }

  lemma {:induction false} Pow2BitAt(a: nat, b: nat)
    ensures (Pow2(a) / Pow2(b)) % 2 == (if a == b then 1 else 0)
  {
    if a < b {
      Pow2Strict(a, b);
      DivUnique(Pow2(a), Pow2(b), 0, Pow2(a));
    } else {
      var q := Pow2(a - b);
      Pow2Add(b, a - b);
      DivUnique(Pow2(a), Pow2(b), q, 0);
      if a > b {
        DivUnique(q, 2, Pow2(a - b - 1), 0);
      } else {
        assert q == 1;
      }
    }
  }

  lemma UnitBytesBits(idx: nat)
    requires idx < CrcSize
    ensures BytesToBits(UnitBytes(idx)) == Unit(CrcSize, idx)
  {
    forall j | 0 <= j < CrcSize
      ensures BitAt(UnitBytes(idx), j) == (j == idx)
    {
      UnitBit(idx, j);
    }
    BitsOfUnit(UnitBytes(idx), idx);
  }

  /** Bytes whose only set bit is `idx` expand to the unit bit string. */
  lemma BitsOfUnit(bs: seq<byte>, idx: nat)
    requires |bs| == 32
    requires forall j :: 0 <= j < CrcSize ==> BitAt(bs, j) == (j == idx)
    ensures BytesToBits(bs) == Unit(CrcSize, idx)
  {
    var bits, unit := BytesToBits(bs), Unit(CrcSize, idx);
    forall j | 0 <= j < CrcSize
      ensures bits[j] == unit[j]
    {
      assert bits[j] == BitAt(bs, j);
    }
  }

  /** Bit `j` of the unit buffer is set exactly at `idx`. */
  lemma UnitBit(idx: nat, j: nat)
    requires idx < CrcSize && j < CrcSize
    ensures BitAt(UnitBytes(idx), j) == (j == idx)
  {
    var bs := UnitBytes(idx);
    assert j == 8 * (j / 8) + j % 8 && idx == 8 * (idx / 8) + idx % 8;
    if j / 8 == idx / 8 {
      assert bs[j / 8] == Pow2(7 - idx % 8);
      Pow2BitAt(7 - idx % 8, 7 - j % 8);
    } else {
      assert bs[j / 8] == 0;
    }
  }

  /** The table `MakeCRCTable(poly)` builds: entry `k` is the remainder of bit `k`. */
  function CrcTable(poly: nat): (t: seq<nat>)
    ensures |t| == CrcSize
    ensures forall k :: 0 <= k < CrcSize ==> t[k] < Pow2(24)
  {
    seq(CrcSize, k requires 0 <= k < CrcSize => SerialChecksum(UnitBytes(k), poly))
  }

  /** Entry `k` of the table is the bit-serial checksum of the unit buffer `k`. */
  lemma CrcTableAt(poly: nat, k: nat)
    requires k < CrcSize
    ensures CrcTable(poly)[k] == SerialChecksum(UnitBytes(k), poly)
  {
  }

  /** The value `t.Checksum24(input, bitLength)` returns after `n` loop steps. */
  function TableChecksum(t: seq<nat>, input: seq<byte>, offset: nat, n: nat): (r: nat)
    requires |t| == CrcSize && n <= 8 * |input| && offset + n <= CrcSize
    ensures r < Pow2(24)
  {
    if n == 0 then 0
    else
      var c := TableChecksum(t, input, offset, n - 1);
      if BitAt(input, n - 1) then XorWord(c, t[n - 1 + offset]) else c
  }

  /** `bits` with every position from `n` on cleared. */
  function Masked(bits: seq<bool>, n: nat): (r: seq<bool>)
    ensures |r| == |bits|
  {
    seq(|bits|, j requires 0 <= j < |bits| => j < n && bits[j])
  }

  /** Entry `off + i` of the table is the remainder of bit `i` of any message of
      `256 - off` bits. */
  lemma CrcTableEntry(poly: nat, off: nat, i: nat)
    requires off + i < CrcSize
    ensures CrcTable(poly)[off + i] == BitsToNat(Remainder(Unit(CrcSize - off, i), PolyBits(poly)))
  {
    var p := PolyBits(poly);
    UnitBytesBits(off + i);
    assert Unit(CrcSize, off + i) == Zeros(off) + Unit(CrcSize - off, i);
    RemainderLeadingZeros(off, Unit(CrcSize - off, i), p);
  }

  lemma MaskedStep(bits: seq<bool>, n: nat)
    requires 0 < n <= |bits|
    ensures Masked(bits, n) == if bits[n - 1] then Xor(Masked(bits, n - 1), Unit(|bits|, n - 1))
                               else Masked(bits, n - 1)
  {
  }

  /** The prefix invariant of the table loop: after `n` steps the accumulator is the
      remainder of the first `n` message bits. */
  lemma {:induction false} TableChecksumPrefix(poly: nat, input: seq<byte>, n: nat)
    requires |input| <= 32 && n <= 8 * |input|
    ensures TableChecksum(CrcTable(poly), input, CrcSize - 8 * |input|, n)
         == BitsToNat(Remainder(Masked(BytesToBits(input), n), PolyBits(poly)))
  {
    var bits, p, len := BytesToBits(input), PolyBits(poly), 8 * |input|;
    var off := CrcSize - len;
    if n == 0 {
      assert Masked(bits, 0) == Zeros(len);
      RemainderZeros(p, len);
      BitsToNatZeros(24);
    } else {
      TableChecksumPrefix(poly, input, n - 1);
      var prev := Masked(bits, n - 1);
      MaskedStep(bits, n);
      if bits[n - 1] {
        var u := Unit(len, n - 1);
        RemainderLinear(prev, u, p);
        CrcTableEntry(poly, off, n - 1);
        XorWordBits(Remainder(prev, p), Remainder(u, p));
      }
    }
  }

  /** The table-driven checksum agrees with the bit-serial division. */
  lemma TableMatchesSerial(poly: nat, input: seq<byte>)
    requires |input| <= 32
    ensures TableChecksum(CrcTable(poly), input, CrcSize - 8 * |input|, 8 * |input|)
         == SerialChecksum(input, poly)
  {
    TableChecksumPrefix(poly, input, 8 * |input|);
    assert Masked(BytesToBits(input), 8 * |input|) == BytesToBits(input);
  }

  /** The parity `ChecksumSquitter` computes, as a value. */
  function Squitter(input: seq<byte>): (r: nat)
    requires |input| <= 32
    ensures r < Pow2(24)
    ensures r == SerialChecksum(input, PolynomCRC)
  {
    TableMatchesSerial(PolynomCRC, input);
    TableChecksum(CrcTable(PolynomCRC), input, CrcSize - 8 * |input|, 8 * |input|)
  }

  lemma ZeroBytesBits(input: seq<byte>)
    requires forall i :: 0 <= i < |input| ==> input[i] == 0
    ensures BytesToBits(input) == Zeros(8 * |input|)
  {
    forall j | 0 <= j < 8 * |input|
      ensures !BitAt(input, j)
    {
      assert input[j / 8] == 0;
    }
  }

  /** The checksum of an all-zero message is zero. */
  lemma SquitterZero(input: seq<byte>)
    requires |input| <= 32
    requires forall i :: 0 <= i < |input| ==> input[i] == 0
    ensures Squitter(input) == 0
  {
    TableMatchesSerial(PolynomCRC, input);
    ZeroBytesBits(input);
    RemainderZeros(PolyBits(PolynomCRC), 8 * |input|);
    BitsToNatZeros(24);
  }

  /** The checksum is XOR-linear: when `c` is the bytewise exclusive or of `a` and `b`,
      its checksum is the exclusive or of theirs. */
  lemma SquitterLinear(a: seq<byte>, b: seq<byte>, c: seq<byte>)
    requires |a| == |b| == |c| <= 32
    requires BytesToBits(c) == Xor(BytesToBits(a), BytesToBits(b))
    ensures Squitter(c) == XorWord(Squitter(a), Squitter(b))
  {
    var p := PolyBits(PolynomCRC);
    TableMatchesSerial(PolynomCRC, a);
    TableMatchesSerial(PolynomCRC, b);
    TableMatchesSerial(PolynomCRC, c);
    RemainderLinear(BytesToBits(a), BytesToBits(b), p);
    XorWordBits(Remainder(BytesToBits(a), p), Remainder(BytesToBits(b), p));
  }

  // ---------------------------------------------------------------------------
  // The three procedures of the engine

  /** `checksum24`: long division over a copy of the message extended by three zero
      bytes, one bit at a time; the remainder is the 24 bits after the message. */
  method Checksum24BitSerial(input: seq<byte>, poly: nat) returns (r: nat)
    ensures r == SerialChecksum(input, poly)
    ensures r < Pow2(24)
  {
    var p := PolyBits(poly);
    var init := BytesToBits(input) + Zeros(24);
    var data := new bool[|init|](k requires 0 <= k < |init| => init[k]);
    var len := 8 * |input|;
    var idx := 0;
    while idx < len
      invariant 0 <= idx <= len
      invariant data[..] == Run(init, p, idx)
    {
      if data[idx] {
        XorGenerator(data, p, idx);
      }
      idx := idx + 1;
    }
    r := BitsToNat(data[len..len + 24]);
    assert data[len..len + 24] == Run(init, p, len)[len..];
  }

  /** The inner loop of `checksum24`: XOR the generator into the buffer at bit `idx`. */
  method XorGenerator(data: array<bool>, p: seq<bool>, idx: nat)
    requires |p| == 25 && idx + 25 <= data.Length
    modifies data
    ensures data[..] == XorAt(old(data[..]), p, idx)
  {
    forall k | idx <= k < idx + 25 {
      data[k] := data[k] != p[k - idx];
    }
  }

  /** `MakeCRCTable`: entry `idx` is the bit-serial checksum of a 32-byte buffer whose
      only set bit is bit `idx`. */
  method MakeCRCTable(poly: nat) returns (table: array<nat>)
    ensures table.Length == CrcSize
    ensures table[..] == CrcTable(poly)
  {
    table := new nat[CrcSize];
    ghost var t := CrcTable(poly);
    var idx := 0;
    while idx < CrcSize
      invariant 0 <= idx <= CrcSize
      invariant table[..idx] == t[..idx]
    {
      CrcTableAt(poly, idx);
      SetTableEntry(table, poly, idx, t);
      idx := idx + 1;
    }
    assert table[..] == table[..CrcSize];
  }

  /** One turn of the table loop: entry `idx` is the checksum of the unit buffer `idx`. */
  method SetTableEntry(table: array<nat>, poly: nat, idx: nat, ghost t: seq<nat>)
    requires table.Length == |t| == CrcSize && idx < CrcSize
    requires t[idx] == SerialChecksum(UnitBytes(idx), poly)
    requires table[..idx] == t[..idx]
    modifies table
    ensures table[..idx + 1] == t[..idx + 1]
  {
    var data := UnitBytes(idx);
    var entry := Checksum24BitSerial(data, poly);
    WriteEntry(table, idx, entry, t);
  }

  /** The write of one turn extends the filled prefix by one entry. */
  method WriteEntry(table: array<nat>, idx: nat, entry: nat, ghost t: seq<nat>)
    requires idx < table.Length == |t| && t[idx] == entry
    requires table[..idx] == t[..idx]
    modifies table
    ensures table[..idx + 1] == t[..idx + 1]
  {
    table[idx] := entry;
    assert table[..idx + 1] == table[..idx] + [t[idx]];
    assert t[..idx + 1] == t[..idx] + [t[idx]];
  }

  /** `CRCTable.Checksum24`: XOR of the table entries `idx + offset` for every set bit
      `idx` among the first `bitLength` bits of the message. */
  // The `crc ^= t[idx+offset]` of the loop is the full `uint32` exclusive or; the
  // table entries are 24-bit checksums (as `MakeCRCTable` builds them), so it agrees
  // with the 24-bit `XorWord` of the specification.
  method Checksum24(table: array<nat>, input: seq<byte>, bitLength: nat) returns (crc: nat)
    requires table.Length == CrcSize
    requires EntriesFit(table[..])
    requires bitLength <= CrcSize && bitLength <= 8 * |input|
    ensures crc == TableChecksum(table[..], input, CrcSize - bitLength, bitLength)
    ensures crc < Pow2(24)
  {
    ghost var t := table[..];
    var offset := CrcSize - bitLength;
    crc := 0;
    var idx := 0;
    while idx < bitLength
      invariant 0 <= idx <= bitLength
      invariant crc == TableChecksum(t, input, offset, idx)
    {
      var entry, bit := table[idx + offset], BitAt(input, idx);
      TableStep(t, input, offset, idx, crc, bit, entry);
      if bit {
        crc := Uint32Xor(crc, entry);
      }
      idx := idx + 1;
    }
  }

  /** Every entry of the table is a 24-bit value. */
  predicate EntriesFit(t: seq<nat>)
  {
    forall i :: 0 <= i < |t| ==> t[i] < Pow2(24)
  }

  /** The entries `MakeCRCTable` computes are 24-bit checksums. */
  lemma TableFits(poly: nat)
    ensures EntriesFit(CrcTable(poly))
  {
    var t := CrcTable(poly);
    forall i | 0 <= i < |t|
      ensures t[i] < Pow2(24)
    {
      CrcTableAt(poly, i);
    }
  }

  /** One turn of the loop of `Checksum24`: the `uint32` exclusive or with the entry of
      a set bit advances the checksum by one bit. */
  lemma TableStep(t: seq<nat>, input: seq<byte>, offset: nat, idx: nat, crc: nat, bit: bool, entry: nat)
    requires |t| == CrcSize && idx < 8 * |input| && offset + idx < CrcSize
    requires EntriesFit(t)
    requires crc == TableChecksum(t, input, offset, idx)
    requires bit == BitAt(input, idx) && entry == t[idx + offset]
    ensures TableChecksum(t, input, offset, idx + 1) == if bit then Uint32Xor(crc, entry) else crc
  {
    XorWordIsUint32Xor(crc, entry);
  }

  /** `ChecksumSquitter`: the table-driven checksum of the whole message, which equals
      the bit-serial remainder for messages of at most 32 bytes. */
  method ChecksumSquitter(input: seq<byte>) returns (r: nat)
    requires |input| <= 32
    ensures r == SerialChecksum(input, PolynomCRC)
    ensures r == Squitter(input)
  {
    var table := MakeCRCTable(PolynomCRC);
    TableFits(PolynomCRC);
    r := Checksum24(table, input, 8 * |input|);
    SquitterByTable(input, table[..], r);
  }

  lemma SquitterByTable(input: seq<byte>, table: seq<nat>, r: nat)
    requires |input| <= 32 && table == CrcTable(PolynomCRC)
    requires r == TableChecksum(table, input, CrcSize - 8 * |input|, 8 * |input|)
    ensures r == SerialChecksum(input, PolynomCRC) && r == Squitter(input)
  {
    TableMatchesSerial(PolynomCRC, input);
  }
}
