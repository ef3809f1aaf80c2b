// The C helpers of the RTL-SDR demodulator: the in-place sort and the recursive
// search over lists of ICAO addresses, the folding of I/Q samples into the index of
// the magnitude table, the shape test of a Mode S preamble and the slicing of a
// magnitude buffer into the bits of a frame.
//
// The 8-, 16- and 32-bit unsigned C types are subset types of `int`; the global
// magnitude table (filled with floating point by `initTables`) is a parameter.

module Rtlsdr {
  import opened Bits

  type uint16 = x: int | 0 <= x < 0x1_0000
  type uint32 = x: int | 0 <= x < 0x1_0000_0000

  // ---------------------------------------------------------------------------
  // Sorting ICAO addresses

  predicate Sorted(s: seq<int>)
  {
    forall i, j :: 0 <= i < j < |s| ==> s[i] <= s[j]
  }

  /** How many elements of `t` are smaller than `x`. */
  function Smaller(x: int, t: seq<int>): nat
  {
    if t == [] then 0 else (if t[0] < x then 1 else 0) + Smaller(x, t[1..])
  }

  /** The number of pairs of positions of `s` that are out of order. */
  function Inversions(s: seq<int>): nat
  {
    if s == [] then 0 else Smaller(s[0], s[1..]) + Inversions(s[1..])
  }

  /** `s` with the elements at `k` and `k + 1` exchanged. */
  function Swap(s: seq<int>, k: nat): (r: seq<int>)
    requires k + 1 < |s|
    ensures |r| == |s| && multiset(r) == multiset(s)
    ensures r[k] == s[k + 1] && r[k + 1] == s[k]
    ensures forall i :: 0 <= i < |s| && i != k && i != k + 1 ==> r[i] == s[i]
  {
    var r := s[k := s[k + 1]][k + 1 := s[k]];
    assert s == s[..k] + [s[k], s[k + 1]] + s[k + 2..];
    assert r == s[..k] + [s[k + 1], s[k]] + s[k + 2..];
    r
  }

  /** Exchanging two neighbours of a list does not change how many of its elements
      are smaller than `x`. */
  lemma {:induction false} SmallerSwap(x: int, t: seq<int>, k: nat)
    requires k + 1 < |t|
    ensures Smaller(x, Swap(t, k)) == Smaller(x, t)
  {
    var u := Swap(t, k);
    if k == 0 {
      assert u[1..][1..] == t[2..] == t[1..][1..];
    } else {
      assert u[1..] == Swap(t[1..], k - 1);
      SmallerSwap(x, t[1..], k - 1);
    }
  }

  /** Exchanging two neighbours that are out of order removes exactly one inversion. */
  lemma {:induction false} InversionsSwap(s: seq<int>, k: nat)
    requires k + 1 < |s| && s[k] > s[k + 1]
    ensures Inversions(Swap(s, k)) + 1 == Inversions(s)
  {
    var u := Swap(s, k);
    if k == 0 {
      var a, b, rest := s[0], s[1], s[2..];
      assert s[1..] == [b] + rest && s[1..][1..] == rest;
      assert u[1..] == [a] + rest && u[1..][1..] == rest;
      assert Smaller(a, s[1..]) == 1 + Smaller(a, rest);
      assert Inversions(s[1..]) == Smaller(b, rest) + Inversions(rest);
      assert Smaller(b, u[1..]) == Smaller(b, rest);
      assert Inversions(u[1..]) == Smaller(a, rest) + Inversions(rest);
    } else {
      assert u[1..] == Swap(s[1..], k - 1);
      SmallerSwap(s[0], s[1..], k - 1);
      InversionsSwap(s[1..], k - 1);
    }
  }

  /** A prefix of a sorted prefix is sorted. */
  lemma SortedPrefix(s: seq<int>, n: nat, m: nat)
    requires n <= m <= |s| && Sorted(s[..m])
    ensures Sorted(s[..n])
  {
    assert forall i :: 0 <= i < n ==> s[..n][i] == s[..m][i];
  }

  /** A sorted prefix grows by one element no smaller than its last. */
  lemma SortedExtend(s: seq<int>, n: nat)
    requires 1 <= n < |s| && Sorted(s[..n]) && s[n - 1] <= s[n]
    ensures Sorted(s[..n + 1])
  {
    assert forall i :: 0 <= i < n ==> s[..n + 1][i] == s[..n][i];
  }

  /** The exchange of `list[k]` and `list[k + 1]` through a temporary. */
  method SwapAdjacent(list: array<uint32>, k: nat)
    requires k + 1 < list.Length
    modifies list
    ensures list[..] == Swap(old(list[..]), k)
  {
    var tmp := list[k];
    list[k] := list[k + 1];
    list[k + 1] := tmp;
  }

  /** `sortICAOaddr`: a gnome sort. While the pair in front of `idx` is out of order it
      is exchanged and `idx` steps back (never below 1); otherwise `idx` moves on. Every
      exchange removes one inversion, which bounds the loop. */
  method SortIcaoAddr(list: array<uint32>)
    modifies list
    ensures Sorted(list[..])
    ensures multiset(list[..]) == multiset(old(list[..]))
    ensures list.Length <= 1 ==> list[..] == old(list[..])
  {
    var idx := 1;
    while idx < list.Length
      invariant 1 <= idx && (list.Length >= 1 ==> idx <= list.Length)
      invariant idx <= list.Length ==> Sorted(list[..idx])
      invariant multiset(list[..]) == multiset(old(list[..]))
      invariant list.Length <= 1 ==> list[..] == old(list[..])
      decreases Inversions(list[..]), list.Length - idx
    {
      if list[idx - 1] > list[idx] {
        ghost var before := list[..];
        SwapAdjacent(list, idx - 1);
        InversionsSwap(before, idx - 1);
        if idx > 1 {
          SortedPrefix(before, idx - 1, idx);
          assert list[..idx - 1] == before[..idx - 1];
          idx := idx - 1;
        } else {
          assert Sorted(list[..1]);
        }
        continue;
      }
      SortedExtend(list[..], idx);
      idx := idx + 1;
    }
    assert list.Length >= 1 ==> list[..] == list[..idx];
  }

  // ---------------------------------------------------------------------------
  // Searching an ICAO address

  /** `searchICAO`: 1 when `addr` is the middle, the first or the last element;
      otherwise, for at least three elements, the search goes on in the upper part
      (from the middle) or the lower part (up to the middle included). */
  function SearchIcao(list: seq<uint32>, addr: uint32): (found: byte)
    requires |list| >= 1
    ensures found == 0 || found == 1
    ensures found == 1 ==> addr in list
    decreases |list|
  {
    var middleIndex := |list| / 2;
    if list[middleIndex] == addr || list[0] == addr || list[|list| - 1] == addr then 1
    else if |list| < 3 then 0
    else if addr > list[middleIndex] then SearchIcao(list[middleIndex..], addr)
    else SearchIcao(list[..middleIndex + 1], addr)
  }

  /** On a sorted list the search answers 1 exactly when the address occurs. */
  lemma {:induction false} SearchIcaoComplete(list: seq<uint32>, addr: uint32)
    requires |list| >= 1 && Sorted(list)
    ensures SearchIcao(list, addr) == 1 <==> addr in list
  {
    var middleIndex := |list| / 2;
    if list[middleIndex] == addr || list[0] == addr || list[|list| - 1] == addr {
    } else if |list| < 3 {
      assert |list| == 1 ==> list == [list[0]];
      assert |list| == 2 ==> list == [list[0], list[1]];
    } else if addr > list[middleIndex] {
      var upper := list[middleIndex..];
      if addr in list {
        var j :| 0 <= j < |list| && list[j] == addr;
        assert upper[j - middleIndex] == addr;
      }
      SearchIcaoComplete(upper, addr);
    } else {
      var lower := list[..middleIndex + 1];
      if addr in list {
        var j :| 0 <= j < |list| && list[j] == addr;
        assert lower[j] == addr;
      }
      SearchIcaoComplete(lower, addr);
    }
  }

  // ---------------------------------------------------------------------------
  // Magnitudes

  /** Distance of a raw I or Q sample from the mid level 127. */
  function Fold(v: byte): (r: nat)
    ensures r <= 128
    ensures v == 127 + r || v + r == 127
  {
    if v > 127 then v - 127 else 127 - v
  }

  /** Position of the magnitude of a folded I/Q pair in the 129 x 129 table. */
  function MagnitudeIndex(i: byte, q: byte): (k: nat)
    ensures k < 129 * 129
  {
    Fold(i) * 129 + Fold(q)
  }

  /** The index identifies both folded samples: the row is the folded I, the column
      the folded Q. */
  lemma MagnitudeIndexParts(i: byte, q: byte)
    ensures MagnitudeIndex(i, q) / 129 == Fold(i)
    ensures MagnitudeIndex(i, q) % 129 == Fold(q)
  {
    DivUnique(MagnitudeIndex(i, q), 129, Fold(i), Fold(q));
  }

  /** Two pairs share a table entry exactly when their folded samples agree. */
  lemma MagnitudeIndexInjective(i: byte, q: byte, i': byte, q': byte)
    ensures MagnitudeIndex(i, q) == MagnitudeIndex(i', q') <==> Fold(i) == Fold(i') && Fold(q) == Fold(q')
  {
    MagnitudeIndexParts(i, q);
    MagnitudeIndexParts(i', q');
  }

  /** The magnitudes of a raw buffer of I/Q byte pairs, without the carried-over
      magnitudes of the previous buffer. */
  method ComputeMagnitudes(byteBuffer: array<byte>, magnitude: array<uint16>) returns (magnitudeBuffer: array<uint16>)
    requires magnitude.Length == 129 * 129
    ensures fresh(magnitudeBuffer)
    ensures magnitudeBuffer.Length == byteBuffer.Length / 2
    ensures forall k :: 0 <= k < magnitudeBuffer.Length ==>
      magnitudeBuffer[k] == magnitude[MagnitudeIndex(byteBuffer[2 * k], byteBuffer[2 * k + 1])]
  {
    magnitudeBuffer := new uint16[byteBuffer.Length / 2];
    for idx := 0 to byteBuffer.Length / 2
      invariant forall k :: 0 <= k < idx ==>
        magnitudeBuffer[k] == magnitude[MagnitudeIndex(byteBuffer[2 * k], byteBuffer[2 * k + 1])]
    {
      var i := byteBuffer[idx * 2];
      var q := byteBuffer[idx * 2 + 1];
      magnitudeBuffer[idx] := magnitude[MagnitudeIndex(i, q)];
    }
  }

  // ---------------------------------------------------------------------------
  // Preamble

  /** The pulse comparisons of the preamble test: high samples at 0, 2, 7 and 9, each
      above its neighbours, and the samples after 2 and after 9 below them. */
  predicate PulseShape(m: seq<uint16>, idx: nat)
    requires idx + 16 <= |m|
  {
    m[idx] > m[idx + 1] && m[idx + 1] < m[idx + 2] &&
    m[idx + 2] > m[idx + 3] && m[idx + 2] > m[idx + 4] && m[idx + 2] > m[idx + 5] && m[idx + 2] > m[idx + 6] &&
    m[idx + 6] < m[idx + 7] && m[idx + 7] > m[idx + 8] && m[idx + 8] < m[idx + 9] &&
    m[idx + 9] > m[idx + 10] && m[idx + 9] > m[idx + 11] && m[idx + 9] > m[idx + 12] &&
    m[idx + 9] > m[idx + 13] && m[idx + 9] > m[idx + 14] && m[idx + 9] > m[idx + 15]
  }

  /** `meanHigh`: the mean of the four high samples, truncated; it fits 16 bits, and
      it is positive once the pulse comparisons hold (each high sample exceeds one of
      its neighbours). */
  function MeanHigh(m: seq<uint16>, idx: nat): (r: nat)
    requires idx + 16 <= |m|
    ensures r < 0x1_0000
    ensures PulseShape(m, idx) ==> r >= 1
  {
    (m[idx] as int + m[idx + 2] + m[idx + 7] + m[idx + 9]) / 4
  }

  /** The preamble test: the pulse comparisons, then no high sample reaching three
      times the mean. The divisions are well defined because `MeanHigh` is positive. */
  predicate Preamble(m: seq<uint16>, idx: nat)
    requires idx + 16 <= |m|
  {
    PulseShape(m, idx) &&
    var meanHigh := MeanHigh(m, idx);
    !(m[idx] / meanHigh > 2 || m[idx + 2] / meanHigh > 2 ||
      m[idx + 7] / meanHigh > 2 || m[idx + 9] / meanHigh > 2)
  }

  lemma QuotientAtMostTwo(x: nat, d: nat)
    requires d > 0
    ensures x / d <= 2 <==> x < 3 * d
  {
    var q, r := x / d, x % d;
    assert x == q * d + r;
    if q <= 2 {
      assert q * d <= 2 * d by {
        assert (2 - q) * d >= 0;
      }
    } else {
      assert q * d >= 3 * d by {
        assert (q - 3) * d >= 0;
      }
    }
  }

  /** A recognised preamble has balanced high pulses: each is below three times their
      mean, and every comparison of the pulse shape holds. */
  lemma PreambleBalanced(m: seq<uint16>, idx: nat)
    requires idx + 16 <= |m|
    ensures Preamble(m, idx) <==>
      PulseShape(m, idx) &&
      m[idx] < 3 * MeanHigh(m, idx) && m[idx + 2] < 3 * MeanHigh(m, idx) &&
      m[idx + 7] < 3 * MeanHigh(m, idx) && m[idx + 9] < 3 * MeanHigh(m, idx)
  {
    if PulseShape(m, idx) {
      var d := MeanHigh(m, idx);
      QuotientAtMostTwo(m[idx], d);
      QuotientAtMostTwo(m[idx + 2], d);
      QuotientAtMostTwo(m[idx + 7], d);
      QuotientAtMostTwo(m[idx + 9], d);
    }
  }

  // ---------------------------------------------------------------------------
  // Decoding a frame

  const ShortMessageBits := 56
  const LongMessageBits := 112
  const MessageBytes := 14

  /** The length the first decoded bit announces: 112 bits when it is 1, else 56. */
  function FrameLength(mag: seq<uint16>): (n: nat)
    requires |mag| >= 2
    ensures n == ShortMessageBits || n == LongMessageBits
    ensures n == LongMessageBits <==> mag[0] > mag[1]
  {
    if mag[0] > mag[1] then LongMessageBits else ShortMessageBits
  }

  /** The buffer holds two magnitudes for every bit of the frame it announces. */
  predicate Readable(mag: seq<uint16>)
  {
    |mag| >= 2 && |mag| >= 2 * FrameLength(mag)
  }

  /** The 112 bit slots of a message after decoding `n` bits: bit k is set when the
      first magnitude of its pair is the larger one; slots from `n` on are clear. */
  function DecodedBits(mag: seq<uint16>, n: nat): (bits: seq<bool>)
    requires n <= LongMessageBits && 2 * n <= |mag|
    ensures |bits| == LongMessageBits
    ensures forall k :: 0 <= k < LongMessageBits ==> bits[k] == (k < n && mag[2 * k] > mag[2 * k + 1])
  {
    seq(LongMessageBits, k requires 0 <= k < LongMessageBits => k < n && mag[2 * k] > mag[2 * k + 1])
  }

  /** The byte whose bits, most significant first, are `c`. */
  function ByteOf(c: seq<bool>): (b: byte)
    requires |c| == 8
  {
    BitsToNatBound(c);
    Pow2Values();
    BitsToNat(c)
  }

  /** The 14 message bytes holding 112 bits, most significant bit first. */
  function Pack(bits: seq<bool>): (bytes: seq<byte>)
    requires |bits| == LongMessageBits
    ensures |bytes| == MessageBytes
  {
    seq(MessageBytes, j requires 0 <= j < MessageBytes => ByteOf(bits[8 * j..8 * j + 8]))
  }

  /** `x | (bit << p)` for a byte `x`. */
  function OrBit(x: byte, p: nat, bit: bool): int
    requires p < 8
  {
    if !bit || (x / Pow2(p)) % 2 == 1 then x else x + Pow2(p)
  }

  /** Bit `q` of a bit string, read back from its value. */
  lemma BitOfValue(c: seq<bool>, q: nat)
    requires q < |c|
    ensures (BitsToNat(c) / Pow2(|c| - 1 - q)) % 2 == (if c[q] then 1 else 0)
  {
    PrefixValue(c, q + 1, |c| - 1 - q);
    LastBitValue(c[..q + 1], c[q]);
  }

  /** Dropping the last `e` bits of a bit string's value leaves the value of its prefix. */
  lemma PrefixValue(c: seq<bool>, k: nat, e: nat)
    requires k <= |c| && e == |c| - k
    ensures BitsToNat(c) / Pow2(e) == BitsToNat(c[..k])
  {
    var a, t := c[..k], c[k..];
    assert c == a + t;
    BitsToNatAppend(a, t);
    BitsToNatBound(t);
    DivUnique(BitsToNat(c), Pow2(|t|), BitsToNat(a), BitsToNat(t));
  }

  /** The parity of a bit string's value is its last bit. */
  lemma LastBitValue(a: seq<bool>, b: bool)
    requires |a| > 0 && a[|a| - 1] == b
    ensures BitsToNat(a) % 2 == if b then 1 else 0
  {
    assert a == a[..|a| - 1] + [b];
    BitsToNatSnoc(a[..|a| - 1], b);
    DivUnique(BitsToNat(a), 2, BitsToNat(a[..|a| - 1]), if b then 1 else 0);
  }

  /** Setting a clear bit adds its weight. */
  lemma SetClearBit(c: seq<bool>, q: nat)
    requires q < |c| && !c[q]
    ensures BitsToNat(c[q := true]) == BitsToNat(c) + Pow2(|c| - 1 - q)
  {
    var a, t := c[..q], c[q + 1..];
    var p := Pow2(|t|);
    assert c == (a + [false]) + t;
    assert c[q := true] == (a + [true]) + t;
    BitsToNatAppend(a + [false], t);
    BitsToNatAppend(a + [true], t);
    BitsToNatSnoc(a, false);
    BitsToNatSnoc(a, true);
    SuccessorProduct(BitsToNat(a + [true]), BitsToNat(a + [false]), p);
  }

  lemma SuccessorProduct(u: int, w: int, p: int)
    requires u == w + 1
    ensures u * p == w * p + p
  {
  }

  /** ORing a bit into a byte sets the corresponding clear bit of its bit string. */
  lemma OrBitOfByte(c: seq<bool>, q: nat, bit: bool)
    requires |c| == 8 && q < 8 && !c[q]
    ensures ByteOf(c[q := bit]) == OrBit(ByteOf(c), 7 - q, bit)
  {
    if bit {
      BitOfValue(c, q);
      SetClearBit(c, q);
    } else {
      assert c[q := bit] == c;
    }
  }

  /** One byte of the message changes when bit `n` is decoded: the one holding it,
      which gets that bit ORed in. */
  lemma DecodeOneBit(mag: seq<uint16>, n: nat)
    requires n < LongMessageBits && 2 * n + 2 <= |mag|
    ensures Pack(DecodedBits(mag, n + 1))[n / 8] ==
      OrBit(Pack(DecodedBits(mag, n))[n / 8], 7 - n % 8, mag[2 * n] > mag[2 * n + 1])
    ensures forall i :: 0 <= i < MessageBytes && i != n / 8 ==>
      Pack(DecodedBits(mag, n + 1))[i] == Pack(DecodedBits(mag, n))[i]
  {
    var b, b' := DecodedBits(mag, n), DecodedBits(mag, n + 1);
    var bit := mag[2 * n] > mag[2 * n + 1];
    var j, q := n / 8, n % 8;
    var c, c' := b[8 * j..8 * j + 8], b'[8 * j..8 * j + 8];
    assert c' == c[q := bit];
    OrBitOfByte(c, q, bit);
    forall i | 0 <= i < MessageBytes && i != j
      ensures b'[8 * i..8 * i + 8] == b[8 * i..8 * i + 8]
    {
    }
  }

  lemma PackNothing(mag: seq<uint16>)
    ensures Pack(DecodedBits(mag, 0)) == seq(MessageBytes, j => 0)
  {
    forall j | 0 <= j < MessageBytes
      ensures Pack(DecodedBits(mag, 0))[j] == 0
    {
      assert DecodedBits(mag, 0)[8 * j..8 * j + 8] == Zeros(8);
      BitsToNatZeros(8);
    }
  }

  /** `decodeMessage`: clears the 14 message bytes, then ORs in the bits of the frame,
      one pair of magnitudes per bit, 56 bits or, when the first bit is 1, 112. */
  method DecodeMessage(magnitudeBuffer: array<uint16>, message: array<byte>) returns (messageLengthBit: nat)
    requires message.Length == MessageBytes
    requires Readable(magnitudeBuffer[..])
    modifies message
    ensures messageLengthBit == FrameLength(magnitudeBuffer[..])
    ensures message[..] == Pack(DecodedBits(magnitudeBuffer[..], messageLengthBit))
  {
    ghost var mag := magnitudeBuffer[..];
    forall j | 0 <= j < message.Length {
      message[j] := 0;
    }
    PackNothing(mag);
    assert message[..] == Pack(DecodedBits(mag, 0));
    messageLengthBit := ShortMessageBits;
    var index := 0;
    while index < messageLengthBit
      invariant index <= messageLengthBit && magnitudeBuffer[..] == mag
      invariant messageLengthBit == if index == 0 then ShortMessageBits else FrameLength(mag)
      invariant message[..] == Pack(DecodedBits(mag, index))
      decreases LongMessageBits - index
    {
      var byteIndex := index / 8;
      var bitIndex := index % 8;
      var bit := magnitudeBuffer[index * 2] > magnitudeBuffer[index * 2 + 1];
      if index == 0 && bit {
        messageLengthBit := LongMessageBits;
      }
      SetMessageBit(message, mag, index, byteIndex, bitIndex, bit);
      index := index + 1;
    }
  }

  /** One step of the bit loop: ORs the bit decoded at `index` into its byte, so that
      the message holds the first `index + 1` decoded bits. */
  method SetMessageBit(message: array<byte>, ghost mag: seq<uint16>, index: nat, byteIndex: nat, bitIndex: nat, bit: bool)
    requires message.Length == MessageBytes
    requires index < LongMessageBits && 2 * index + 2 <= |mag|
    requires byteIndex == index / 8 && bitIndex == index % 8
    requires bit == (mag[2 * index] > mag[2 * index + 1])
    requires message[..] == Pack(DecodedBits(mag, index))
    modifies message
    ensures message[..] == Pack(DecodedBits(mag, index + 1))
  {
    ghost var current, next := message[..], Pack(DecodedBits(mag, index + 1));
    DecodeOneBit(mag, index);
    var updated := OrBit(message[byteIndex], 7 - bitIndex, bit);
    assert updated == next[byteIndex];
    message[byteIndex] := updated;
    assert message[..] == current[byteIndex := updated];
    OnlyByteChanged(current, next, byteIndex);
  }

  /** A byte string that differs from `current` only at `j` is `current` updated there. */
  lemma OnlyByteChanged(current: seq<byte>, next: seq<byte>, j: nat)
    requires |current| == |next| && j < |next|
    requires forall i :: 0 <= i < |next| && i != j ==> next[i] == current[i]
    ensures current[j := next[j]] == next
  {
  }

  /** Reading the packed bytes bit by bit gives back the bits. */
  lemma PackBits(bits: seq<bool>)
    requires |bits| == LongMessageBits
    ensures BytesToBits(Pack(bits)) == bits
  {
    var bytes := Pack(bits);
    var all := BytesToBits(bytes);
    forall j | 0 <= j < MessageBytes
      ensures all[8 * j..8 * j + 8] == bits[8 * j..8 * j + 8]
    {
      ReadByte(bytes, j);
      BitsToNatInjective(all[8 * j..8 * j + 8], bits[8 * j..8 * j + 8]);
    }
    forall k | 0 <= k < LongMessageBits
      ensures all[k] == bits[k]
    {
      var j := k / 8;
      assert all[8 * j..8 * j + 8][k - 8 * j] == bits[8 * j..8 * j + 8][k - 8 * j];
    }
  }

  /** After decoding, message bit k (most significant first) is set exactly when k is
      below the frame length and the first magnitude of pair k is the larger one. */
  lemma DecodedMessageBits(mag: seq<uint16>)
    requires Readable(mag)
    ensures forall k :: 0 <= k < LongMessageBits ==>
      BitAt(Pack(DecodedBits(mag, FrameLength(mag))), k) == (k < FrameLength(mag) && mag[2 * k] > mag[2 * k + 1])
  {
    PackBits(DecodedBits(mag, FrameLength(mag)));
  }

  /** The bytes after the frame stay 0. */
  lemma LaterBytesZero(mag: seq<uint16>)
    requires Readable(mag)
    ensures forall j :: FrameLength(mag) / 8 <= j < MessageBytes ==> Pack(DecodedBits(mag, FrameLength(mag)))[j] == 0
  {
    var n := FrameLength(mag);
    forall j | n / 8 <= j < MessageBytes
      ensures Pack(DecodedBits(mag, n))[j] == 0
    {
      assert DecodedBits(mag, n)[8 * j..8 * j + 8] == Zeros(8);
      BitsToNatZeros(8);
    }
  }
}
