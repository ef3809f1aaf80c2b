// Bit-level view of byte strings shared by the whole model: bytes, powers of two,
// most-significant-bit-first addressing of a frame, and the value of a bit field
// (what the repository's ReadBits helper returns).

module Bits {

  /** An unsigned 8-bit value. */
  type byte = x: int | 0 <= x < 256

  function Pow2(n: nat): (r: nat)
    ensures r >= 1
  {
    if n == 0 then 1 else 2 * Pow2(n - 1)
  }

  lemma {:induction false} Pow2Add(a: nat, b: nat)
    ensures Pow2(a + b) == Pow2(a) * Pow2(b)
  {
    if b > 0 {
      Pow2Add(a, b - 1);
    }
  }

  lemma Pow2Values()
    ensures Pow2(8) == 0x100 && Pow2(16) == 0x1_0000 && Pow2(24) == 0x100_0000
  {
    Pow2Add(8, 8);
    Pow2Add(16, 8);
  }

  /** Bit `i` of a byte string, counted from the top bit of the first byte. */
  function BitAt(bs: seq<byte>, i: nat): bool
    requires i < 8 * |bs|
  {
    (bs[i / 8] / Pow2(7 - i % 8)) % 2 == 1
  }

  /** The whole byte string as a bit string, most significant bit first. */
  function BytesToBits(bs: seq<byte>): (r: seq<bool>)
    ensures |r| == 8 * |bs|
    ensures forall i {:trigger BitAt(bs, i)} :: 0 <= i < |r| ==> r[i] == BitAt(bs, i)
  {
    seq(8 * |bs|, i requires 0 <= i < 8 * |bs| => BitAt(bs, i))
  }

  /** The unsigned value of a bit string read most significant bit first. */
  function BitsToNat(s: seq<bool>): nat
  {
    if s == [] then 0 else 2 * BitsToNat(s[..|s| - 1]) + (if s[|s| - 1] then 1 else 0)
  }

  lemma {:induction false} BitsToNatBound(s: seq<bool>)
    ensures BitsToNat(s) < Pow2(|s|)
  {
    if s != [] {
      BitsToNatBound(s[..|s| - 1]);
    }
  }

  lemma BitsToNatSnoc(s: seq<bool>, b: bool)
    ensures BitsToNat(s + [b]) == 2 * BitsToNat(s) + (if b then 1 else 0)
  {
    assert (s + [b])[..|s|] == s;
  }

  lemma {:induction false} BitsToNatAppend(s: seq<bool>, t: seq<bool>)
    ensures BitsToNat(s + t) == BitsToNat(s) * Pow2(|t|) + BitsToNat(t)
    decreases |t|
  {
    if t == [] {
      assert s + t == s;
    } else {
      var t', b := t[..|t| - 1], t[|t| - 1];
      assert t == t' + [b];
      assert s + t == (s + t') + [b];
      BitsToNatSnoc(s + t', b);
      BitsToNatSnoc(t', b);
      BitsToNatAppend(s, t');
      var v, p := BitsToNat(s), Pow2(|t'|);
      assert Pow2(|t|) == 2 * p;
      MulDouble(v, p);
    }
  }

  lemma MulDouble(v: int, p: int)
    ensures 2 * (v * p) == v * (2 * p)
  {
  }

  /** Two bit strings are equal exactly when their values are (for equal lengths). */
  lemma {:induction false} BitsToNatInjective(s: seq<bool>, t: seq<bool>)
    requires |s| == |t|
    requires BitsToNat(s) == BitsToNat(t)
    ensures s == t
  {
    if s != [] {
      var n := |s| - 1;
      assert BitsToNat(s[..n]) == BitsToNat(t[..n]) && s[n] == t[n];
      BitsToNatInjective(s[..n], t[..n]);
      assert s == s[..n] + [s[n]] && t == t[..n] + [t[n]];
    }
  }

  function Zeros(n: nat): (r: seq<bool>)
    ensures |r| == n && forall i :: 0 <= i < n ==> !r[i]
  {
    seq(n, i => false)
  }

  lemma {:induction false} BitsToNatZeros(n: nat)
    ensures BitsToNat(Zeros(n)) == 0
  {
    if n > 0 {
      assert Zeros(n)[..n - 1] == Zeros(n - 1);
      BitsToNatZeros(n - 1);
    }
  }

  /** Bitwise exclusive or of two bit strings of the same length. */
  function Xor(a: seq<bool>, b: seq<bool>): (r: seq<bool>)
    requires |a| == |b|
    ensures |r| == |a| && forall i :: 0 <= i < |a| ==> r[i] == (a[i] != b[i])
  {
    seq(|a|, i requires 0 <= i < |a| => a[i] != b[i])
  }

  /** The `n`-bit field starting at bit `off` of a frame, as an unsigned number. */
  function ReadBits(bs: seq<byte>, off: nat, n: nat): (r: nat)
    requires off + n <= 8 * |bs|
  {
    BitsToNat(BytesToBits(bs)[off..off + n])
  }

  lemma ReadBitsBound(bs: seq<byte>, off: nat, n: nat)
    requires off + n <= 8 * |bs|
    ensures ReadBits(bs, off, n) < Pow2(n)
  {
    BitsToNatBound(BytesToBits(bs)[off..off + n]);
  }

  /** A field can be read in two consecutive parts. */
  lemma ReadBitsSplit(bs: seq<byte>, off: nat, a: nat, c: nat)
    requires off + a + c <= 8 * |bs|
    ensures ReadBits(bs, off, a + c) == ReadBits(bs, off, a) * Pow2(c) + ReadBits(bs, off + a, c)
  {
    SliceValueSplit(BytesToBits(bs), off, a, c);
  }

  /** The value of a slice of bits, read in two consecutive parts. */
  lemma SliceValueSplit(all: seq<bool>, off: nat, a: nat, c: nat)
    requires off + a + c <= |all|
    ensures BitsToNat(all[off..off + a + c])
         == BitsToNat(all[off..off + a]) * Pow2(c) + BitsToNat(all[off + a..off + a + c])
  {
    assert all[off..off + a + c] == all[off..off + a] + all[off + a..off + a + c];
    BitsToNatAppend(all[off..off + a], all[off + a..off + a + c]);
  }

  /** Division is determined by a quotient and an in-range remainder. */
  lemma DivUnique(x: int, d: int, q: int, r: int)
    requires d > 0 && 0 <= r < d && x == q * d + r
    ensures x / d == q && x % d == r
  {
    var q0, r0 := x / d, x % d;
    assert x == q0 * d + r0;
    assert (q0 - q) * d == r - r0 by {
      MulSub(q0, q, d);
    }
    if q0 > q {
      MulAtLeast(q0 - q, d);
    } else if q0 < q {
      MulAtLeast(q - q0, d);
      MulSub(q, q0, d);
    }
  }

  lemma MulSub(a: int, b: int, d: int)
    ensures (a - b) * d == a * d - b * d
  {
  }

  lemma MulAtLeast(a: int, d: int)
    requires a >= 1 && d > 0
    ensures a * d >= d
  {
    assert (a - 1) * d >= 0;
    MulSub(a, 1, d);
  }

  lemma DivDiv(x: nat, a: nat, b: nat)
    requires a > 0 && b > 0
    ensures x / (a * b) == (x / a) / b
  {
    var q, r := x / a, x % a;
    var q2, r2 := q / b, q % b;
    assert x == q * a + r;
    assert q == q2 * b + r2;
    assert r2 * a + r < a * b by {
      MulSub(b, r2, a);
      MulAtLeast(b - r2, a);
      assert b * a == a * b;
    }
    assert q * a == q2 * (a * b) + r2 * a by {
      MulAddRight(q2 * b, r2, a);
      assert (q2 * b) * a == q2 * (a * b);
    }
    DivUnique(x, a * b, q2, r2 * a + r);
  }

  lemma MulAddRight(x: int, y: int, z: int)
    ensures (x + y) * z == x * z + y * z
  {
  }

  lemma ModDouble(q: nat, m: nat)
    requires m > 0
    ensures q % (2 * m) == 2 * ((q / 2) % m) + q % 2
  {
    var h, b := q / 2, q % 2;
    var k, r := h / m, h % m;
    assert q == 2 * h + b;
    assert h == k * m + r;
    assert q == k * (2 * m) + (2 * r + b) by {
      assert 2 * (k * m) == k * (2 * m);
    }
    DivUnique(q, 2 * m, k, 2 * r + b);
  }

  /** Bit `k` (from the top) of byte `i`, read as a one-bit field. */
  lemma ReadOneBit(bs: seq<byte>, i: nat, k: nat)
    requires i < |bs| && k < 8
    ensures ReadBits(bs, 8 * i + k, 1) == (bs[i] / Pow2(7 - k)) % 2
  {
    var j := 8 * i + k;
    assert j / 8 == i && j % 8 == k;
    OneBitValue(BytesToBits(bs), j);
  }

  /** `ReadOneBit` at a position and exponent given by the caller. */
  lemma ReadOneBitAt(bs: seq<byte>, i: nat, k: nat, j: nat, e: nat)
    requires i < |bs| && k < 8 && j == 8 * i + k && e == 7 - k
    ensures ReadBits(bs, j, 1) == (bs[i] / Pow2(e)) % 2
  {
    ReadOneBit(bs, i, k);
  }

  lemma OneBitValue(all: seq<bool>, j: nat)
    requires j < |all|
    ensures BitsToNat(all[j..j + 1]) == if all[j] then 1 else 0
  {
    assert all[j..j + 1] == [] + [all[j]];
    BitsToNatSnoc([], all[j]);
  }

  /** Arithmetic step of `ByteField`: one more low bit extends a field by one place. */
  lemma FieldStep(x: nat, e: nat, n: nat)
    requires n > 0
    ensures (x / Pow2(e + 1)) % Pow2(n - 1) * 2 + (x / Pow2(e)) % 2 == (x / Pow2(e)) % Pow2(n)
  {
    assert Pow2(e + 1) == Pow2(e) * 2;
    DivDiv(x, Pow2(e), 2);
    assert Pow2(n) == 2 * Pow2(n - 1);
    ModDouble(x / Pow2(e), Pow2(n - 1));
  }

  /** Bits `s .. s+n-1` (from the top) of one byte, read as a number. */
  lemma {:induction false} ByteField(bs: seq<byte>, i: nat, s: nat, n: nat)
    requires i < |bs| && s + n <= 8
    ensures ReadBits(bs, 8 * i + s, n) == (bs[i] / Pow2(8 - s - n)) % Pow2(n)
  {
    if n > 0 {
      var off, e, e1 := 8 * i + s, 8 - s - n, 8 - s - (n - 1);
      var total, hi, lo := ReadBits(bs, off, n), ReadBits(bs, off, n - 1), ReadBits(bs, off + n - 1, 1);
      ByteField(bs, i, s, n - 1);
      ReadOneBitAt(bs, i, s + n - 1, off + n - 1, e);
      ReadBitsSplitLast(bs, off, n);
      FieldCombine(total, hi, lo, bs[i], e, e1, n);
    }
  }

  /** A field of `n > 0` bits is its first `n - 1` bits followed by its last bit. */
  lemma ReadBitsSplitLast(bs: seq<byte>, off: nat, n: nat)
    requires n > 0 && off + n <= 8 * |bs|
    ensures ReadBits(bs, off, n) == ReadBits(bs, off, n - 1) * 2 + ReadBits(bs, off + n - 1, 1)
  {
    ReadBitsSplit(bs, off, n - 1, 1);
    assert Pow2(1) == 2 && n - 1 + 1 == n && off + (n - 1) == off + n - 1;
  }

  lemma FieldCombine(total: nat, hi: nat, lo: nat, x: nat, e: nat, e1: nat, n: nat)
    requires n > 0 && e1 == e + 1 && total == hi * 2 + lo
    requires hi == (x / Pow2(e1)) % Pow2(n - 1) && lo == (x / Pow2(e)) % 2
    ensures total == (x / Pow2(e)) % Pow2(n)
  {
    FieldStep(x, e, n);
  }

  /** The top `n` bits of byte `i`. */
  lemma TopField(bs: seq<byte>, i: nat, n: nat)
    requires i < |bs| && n <= 8
    ensures ReadBits(bs, 8 * i, n) == bs[i] / Pow2(8 - n)
  {
    ByteField(bs, i, 0, n);
    TopOfByte(bs[i], n);
  }

  /** The top five bits of a byte. */
  lemma TopFive(x: byte)
    ensures (x / Pow2(8 - 0 - 5)) % Pow2(5) == x / 8 < 32
  {
    assert Pow2(3) == 8 && Pow2(5) == 32;
    DivUnique(x / 8, 32, 0, x / 8);
  }

  /** The low three bits of a byte. */
  lemma LowThree(x: byte)
    ensures (x / Pow2(8 - 5 - 3)) % Pow2(3) == x % 8
  {
    assert Pow2(0) == 1 && Pow2(3) == 8;
  }

  /** The low five bits of a byte. */
  lemma LowFive(x: byte)
    ensures (x / Pow2(8 - 3 - 5)) % Pow2(5) == x % 32
  {
    assert Pow2(0) == 1 && Pow2(5) == 32;
  }

  lemma TopOfByte(x: byte, n: nat)
    requires n <= 8
    ensures (x / Pow2(8 - n)) % Pow2(n) == x / Pow2(8 - n)
  {
    var a, b := Pow2(8 - n), Pow2(n);
    Pow2Add(8 - n, n);
    assert a * b == 256 by {
      assert 8 - n + n == 8;
      Pow2Values();
    }
    DivLess(x, a, b);
    DivUnique(x / a, b, 0, x / a);
  }

  /** The low `n` bits of byte `i`. */
  lemma LowField(bs: seq<byte>, i: nat, n: nat)
    requires i < |bs| && n <= 8
    ensures ReadBits(bs, 8 * i + 8 - n, n) == bs[i] % Pow2(n)
  {
    ByteField(bs, i, 8 - n, n);
    assert 8 * i + (8 - n) == 8 * i + 8 - n;
    assert Pow2(8 - (8 - n) - n) == 1;
  }

  lemma DivLess(x: nat, a: nat, b: nat)
    requires a > 0 && x < a * b
    ensures x / a < b
  {
    var q := x / a;
    assert q * a <= x;
    if q >= b {
      assert (q - b) * a >= 0;
      MulSub(q, b, a);
    }
  }

  lemma ReadByte(bs: seq<byte>, i: nat)
    requires i < |bs|
    ensures ReadBits(bs, 8 * i, 8) == bs[i]
  {
    ByteField(bs, i, 0, 8);
    WholeByte(bs[i]);
  }

  lemma WholeByte(x: byte)
    ensures (x / Pow2(8 - 0 - 8)) % Pow2(8) == x
  {
    assert Pow2(0) == 1 && Pow2(8) == 256;
  }
}
