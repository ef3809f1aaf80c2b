// The two free functions of the model package: the conversion of a 32-bit Gray
// code (reflected binary code) to binary, and the copy of a slice into a slice of
// untyped elements.
//
// A uint32 is modelled by its 32 bits, most significant first: index `idx` is the
// bit selected by the mask `1 << (31 - idx)`, and its value is `Bits.BitsToNat`.

module ModelFunctions {
  import opened Bits

  // ---------------------------------------------------------------------------
  // Gray code

  type Word = s: seq<bool> | |s| == 32 witness seq(32, i => false)

  /** The Gray code of a binary value: each bit XOR the bit above it (`b ^ (b >> 1)`). */
  function GrayOf(b: Word): (g: Word)
    ensures g[0] == b[0]
    ensures forall i :: 0 < i < 32 ==> g[i] == (b[i] != b[i - 1])
  {
    seq(32, i requires 0 <= i < 32 => if i == 0 then b[0] else b[i] != b[i - 1])
  }

  /** True when `s` holds an odd number of set bits. */
  function Parity(s: seq<bool>): bool
  {
    if s == [] then false else Parity(s[..|s| - 1]) != s[|s| - 1]
  }

  /** The reference decoding: each binary bit is the parity of the Gray bits at and
      above it. */
  function Decode(g: Word): (b: Word)
    ensures forall i :: 0 <= i < 32 ==> b[i] == Parity(g[..i + 1])
  {
    seq(32, i requires 0 <= i < 32 => Parity(g[..i + 1]))
  }

  /** Each decoded bit is the Gray bit XOR the decoded bit above it. */
  lemma DecodeStep(g: Word, i: nat)
    requires i < 32
    ensures Decode(g)[i] == (g[i] != (i > 0 && Decode(g)[i - 1]))
  {
    assert g[..i + 1][..i] == g[..i];
    assert Parity(g[..i + 1]) == (Parity(g[..i]) != g[i]);
    if i == 0 {
      assert g[..0] == [];
    } else {
      assert Parity(g[..i]) == Decode(g)[i - 1];
    }
  }

  /** Decoding undoes the Gray encoding. */
  lemma DecodeGray(b: Word)
    ensures Decode(GrayOf(b)) == b
  {
    var g := GrayOf(b);
    forall i | 0 <= i < 32
      ensures Decode(g)[i] == b[i]
    {
      DecodePrefix(b, i);
    }
  }

  lemma {:induction false} DecodePrefix(b: Word, i: nat)
    requires i < 32
    ensures Decode(GrayOf(b))[i] == b[i]
  {
    DecodeStep(GrayOf(b), i);
    if i > 0 {
      DecodePrefix(b, i - 1);
    }
  }

  /** Encoding undoes the decoding. */
  lemma GrayOfDecode(g: Word)
    ensures GrayOf(Decode(g)) == g
  {
    forall i | 0 <= i < 32
      ensures GrayOf(Decode(g))[i] == g[i]
    {
      DecodeStep(g, i);
    }
  }

  /** Two values with the same Gray code are equal. */
  lemma GrayInjective(a: Word, b: Word)
    requires GrayOf(a) == GrayOf(b)
    ensures a == b
  {
    DecodeGray(a);
    DecodeGray(b);
  }

  /** True when none of the top `k` bits is set. */
  predicate TopClear(w: Word, k: nat)
    requires k <= 32
  {
    forall i :: 0 <= i < k ==> !w[i]
  }

  /** `GrayToBinary`: scanning from the top bit, bits are skipped until the first set
      bit, which is copied; below it each result bit is the Gray bit XOR the result
      bit above. */
  method GrayToBinary(gray: Word) returns (binary: Word)
    ensures binary == Decode(gray)
  {
    ghost var d := Decode(gray);
    binary := seq(32, i => false);
    var start := false;
    for idx := 0 to 32
      invariant binary[..idx] == d[..idx]
      invariant forall i :: idx <= i < 32 ==> !binary[i]
      invariant start <==> !TopClear(binary, idx)
    {
      var bit := gray[idx];
      DecodeStep(gray, idx);
      if !start && bit {
        start := true;
        binary := binary[idx := bit];
      } else if start {
        var previousBinaryBit := binary[idx - 1];
        binary := binary[idx := binary[idx] || (bit != previousBinaryBit)];
      }
      assert binary[..idx + 1] == binary[..idx] + [binary[idx]];
      assert d[..idx + 1] == d[..idx] + [d[idx]];
    }
    assert binary == binary[..32];
  }

  /** The decoded value has the same leading bit as the Gray code: for every k, its top
      k bits are all clear exactly when those of the code are. */
  lemma {:induction false} LeadingBitKept(g: Word, k: nat)
    requires k <= 32
    ensures TopClear(Decode(g), k) <==> TopClear(g, k)
  {
    if k > 0 {
      LeadingBitKept(g, k - 1);
      DecodeStep(g, k - 1);
    }
  }

  /** The word whose top 29 bits are clear and whose last three bits are `x y z`. */
  function Low3(x: bool, y: bool, z: bool): (w: Word)
    ensures BitsToNat(w) == (if x then 4 else 0) + (if y then 2 else 0) + (if z then 1 else 0)
  {
    var w := Zeros(29) + [x, y, z];
    BitsToNatAppend(Zeros(29), [x, y, z]);
    BitsToNatZeros(29);
    ThreeBits(x, y, z);
    w
  }

  lemma ThreeBits(x: bool, y: bool, z: bool)
    ensures BitsToNat([x, y, z]) == (if x then 4 else 0) + (if y then 2 else 0) + (if z then 1 else 0)
  {
    BitsToNatSnoc([x, y], z);
    BitsToNatSnoc([x], y);
    BitsToNatSnoc([], x);
    assert [x, y] + [z] == [x, y, z] && [x] + [y] == [x, y] && [] + [x] == [x];
  }

  /** The Gray codes 0, 1, 3, 2, 6, 7, 5, 4 decode to 0 to 7. */
  lemma GrayExamples()
    ensures Decode(Low3(false, false, false)) == Low3(false, false, false)
    ensures Decode(Low3(false, false, true)) == Low3(false, false, true)
    ensures Decode(Low3(false, true, true)) == Low3(false, true, false)
    ensures Decode(Low3(false, true, false)) == Low3(false, true, true)
    ensures Decode(Low3(true, true, false)) == Low3(true, false, false)
    ensures Decode(Low3(true, true, true)) == Low3(true, false, true)
    ensures Decode(Low3(true, false, true)) == Low3(true, true, false)
    ensures Decode(Low3(true, false, false)) == Low3(true, true, true)
  {
    GrayLow3(false, false, false); GrayLow3(false, false, true);
    GrayLow3(false, true, false); GrayLow3(false, true, true);
    GrayLow3(true, false, false); GrayLow3(true, false, true);
    GrayLow3(true, true, false); GrayLow3(true, true, true);
  }

  /** The Gray code of a three-bit value `x y z` is `x (x^y) (y^z)`. */
  lemma GrayLow3(x: bool, y: bool, z: bool)
    ensures Decode(Low3(x, x != y, y != z)) == Low3(x, y, z)
  {
    assert GrayOf(Low3(x, y, z)) == Low3(x, x != y, y != z);
    DecodeGray(Low3(x, y, z));
  }

  // ---------------------------------------------------------------------------
  // Untyped copy

  /** `UntypeArray`: a new array holding the elements of `data` in order. */
  method UntypeArray<T(0)>(data: seq<T>) returns (output: array<T>)
    ensures fresh(output)
    ensures output[..] == data
  {
    output := new T[|data|];
    for idx := 0 to |data|
      invariant output[..idx] == data[..idx]
    {
      output[idx] := data[idx];
    }
  }
}
