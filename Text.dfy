// Text helpers the decoder relies on, stated as the Go standard library
// defines them: splitting and joining on a one-character separator
// (strings.Split / strings.Join), upper-case hexadecimal rendering
// (strings.ToUpper of hex.EncodeToString and of strconv.FormatUint(x, 16)),
// and strconv.ParseUint(s, 16, 32).

module Text {
  import opened Bits

  // ---------------------------------------------------------------------------
  // Splitting and joining

  /** Number of occurrences of `c` in `s`. */
  function Count(s: string, c: char): (r: nat)
    ensures r <= |s|
    ensures r == 0 <==> c !in s
  {
    if s == [] then 0 else (if s[0] == c then 1 else 0) + Count(s[1..], c)
  }

  /** Position of the first `c` in `s`. */
  function IndexOf(s: string, c: char): (r: nat)
    requires c in s
    ensures r < |s| && s[r] == c && c !in s[..r]
  {
    if s[0] == c then 0 else 1 + IndexOf(s[1..], c)
  }

  /** `strings.Split(s, sep)` for a one-character separator. */
  function Split(s: string, c: char): (r: seq<string>)
    ensures |r| >= 1
    decreases |s|
  {
    if c !in s then [s]
    else
      var i := IndexOf(s, c);
      [s[..i]] + Split(s[i + 1..], c)
  }

  /** `strings.Join(parts, sep)` for a one-character separator. */
  function Join(parts: seq<string>, c: char): string
  {
    if parts == [] then []
    else if |parts| == 1 then parts[0]
    else parts[0] + [c] + Join(parts[1..], c)
  }

  /** Split yields one more piece than there are separators, and no piece holds one. */
  lemma {:induction false} SplitPieces(s: string, c: char)
    ensures |Split(s, c)| == Count(s, c) + 1
    ensures forall k :: 0 <= k < |Split(s, c)| ==> c !in Split(s, c)[k]
    decreases |s|
  {
    if c in s {
      var i := IndexOf(s, c);
      SplitPieces(s[i + 1..], c);
      CountSplitAt(s, c, i);
    }
  }

  lemma {:induction false} CountSplitAt(s: string, c: char, i: nat)
    requires i < |s| && s[i] == c && c !in s[..i]
    ensures Count(s, c) == 1 + Count(s[i + 1..], c)
  {
    if i > 0 {
      assert s[1..][..i - 1] == s[1..i];
      assert s[1..][i - 1..][1..] == s[i + 1..];
      CountSplitAt(s[1..], c, i - 1);
      assert s[0] in s[..i];
    }
  }

  /** Joining the pieces of a split restores the string. */
  lemma {:induction false} JoinSplit(s: string, c: char)
    ensures Join(Split(s, c), c) == s
    decreases |s|
  {
    if c in s {
      var i := IndexOf(s, c);
      JoinSplit(s[i + 1..], c);
      var rest := Split(s[i + 1..], c);
      var parts := Split(s, c);
      assert parts == [s[..i]] + rest;
      assert parts[1..] == rest;
      assert Join(parts, c) == s[..i] + [c] + Join(rest, c);
      assert s == s[..i] + [c] + s[i + 1..];
    }
  }

  /** With a separator present, the first piece is the text before the first separator
      and the other pieces joined again are the text after it. */
  lemma SplitFirst(s: string, c: char)
    requires c in s
    ensures |Split(s, c)| >= 2
    ensures Split(s, c)[0] == s[..IndexOf(s, c)]
    ensures Join(Split(s, c)[1..], c) == s[IndexOf(s, c) + 1..]
  {
    var i := IndexOf(s, c);
    JoinSplit(s[i + 1..], c);
    assert Split(s, c)[1..] == Split(s[i + 1..], c);
  }

  /** The first separator of `p + [c] + rest` is the one after `p` when `p` holds none. */
  lemma {:induction false} IndexOfAfter(p: string, c: char, rest: string)
    requires c !in p
    ensures c in p + [c] + rest && IndexOf(p + [c] + rest, c) == |p|
  {
    var s := p + [c] + rest;
    assert s[|p|] == c;
    if p != [] {
      assert s[1..] == p[1..] + [c] + rest;
      assert p[0] in p;
      IndexOfAfter(p[1..], c, rest);
    }
  }

  // ---------------------------------------------------------------------------
  // Hexadecimal digits

  const HexDigits: string := "0123456789ABCDEF"

  function HexDigit(d: nat): (c: char)
    requires d < 16
    ensures c in HexDigits
  {
    HexDigits[d]
  }

  /** The value of a hexadecimal digit of either case, as strconv reads it. */
  function DigitValue(c: char): (r: Option<nat>)
    ensures r.Some? ==> r.value < 16
  {
    if '0' <= c <= '9' then Some(c as nat - '0' as nat)
    else if 'a' <= c <= 'f' then Some(c as nat - 'a' as nat + 10)
    else if 'A' <= c <= 'F' then Some(c as nat - 'A' as nat + 10)
    else None
  }

  lemma DigitValueOfHexDigit(d: nat)
    requires d < 16
    ensures DigitValue(HexDigit(d)) == Some(d)
  {
  }

  datatype Option<T> = None | Some(value: T)

  // ---------------------------------------------------------------------------
  // Bytes as upper-case hexadecimal

  /** `strings.ToUpper(hex.EncodeToString(bs))`: two digits per byte, high nibble first. */
  function HexBytes(bs: seq<byte>): (r: string)
    ensures |r| == 2 * |bs|
    ensures forall i :: 0 <= i < |r| ==> r[i] in HexDigits
  {
    if bs == [] then []
    else [HexDigit(bs[0] / 16), HexDigit(bs[0] % 16)] + HexBytes(bs[1..])
  }

  /** Decoding an even-length hexadecimal string back into bytes. */
  function UnhexBytes(s: string): (r: Option<seq<byte>>)
    decreases |s|
  {
    if s == [] then Some([])
    else if |s| == 1 then None
    else match (DigitValue(s[0]), DigitValue(s[1]), UnhexBytes(s[2..]))
      case (Some(hi), Some(lo), Some(rest)) => Some([hi * 16 + lo] + rest)
      case _ => None
  }

  lemma {:induction false} UnhexHexBytes(bs: seq<byte>)
    ensures UnhexBytes(HexBytes(bs)) == Some(bs)
  {
    if bs != [] {
      HexBytesCons(bs);
      UnhexHexBytes(bs[1..]);
      DigitValueOfHexDigit(bs[0] / 16);
      DigitValueOfHexDigit(bs[0] % 16);
      UnhexHead(bs[0], HexDigit(bs[0] / 16), HexDigit(bs[0] % 16), HexBytes(bs[1..]), bs[1..]);
      assert bs == [bs[0]] + bs[1..];
    }
  }

  lemma HexBytesCons(bs: seq<byte>)
    requires bs != []
    ensures HexBytes(bs) == [HexDigit(bs[0] / 16), HexDigit(bs[0] % 16)] + HexBytes(bs[1..])
  {
  }

  /** The two digits of a byte in front of the text of `r` decode to that byte followed by `r`. */
  lemma UnhexHead(x: byte, hi: char, lo: char, rest: string, r: seq<byte>)
    requires DigitValue(hi) == Some(x / 16) && DigitValue(lo) == Some(x % 16)
    requires UnhexBytes(rest) == Some(r)
    ensures UnhexBytes([hi, lo] + rest) == Some([x] + r)
  {
    assert ([hi, lo] + rest)[2..] == rest;
    assert (x / 16) * 16 + x % 16 == x;
  }

  // ---------------------------------------------------------------------------
  // Unsigned numbers as upper-case hexadecimal

  /** `strings.ToUpper(strconv.FormatUint(x, 16))`: no leading zeros, "0" for zero. */
  function FormatHex(x: nat): (r: string)
    ensures 1 <= |r|
    ensures forall i :: 0 <= i < |r| ==> r[i] in HexDigits
    ensures x > 0 ==> r[0] != '0'
  {
    if x < 16 then [HexDigit(x)] else FormatHex(x / 16) + [HexDigit(x % 16)]
  }

  /** The errors strconv.ParseUint reports. */
  datatype NumError = ErrSyntax | ErrRange

  /** The value and error strconv.ParseUint returns. */
  datatype Parsed = Parsed(value: nat, err: Option<NumError>)

  const MaxUint32: nat := 0xFFFF_FFFF

  /** The accumulator of ParseUint's digit loop after the digits of `s`: the running value,
      or the first failure (a syntax error returns 0, an overflow returns the maximum). */
  function ParseDigits(s: string): (r: Parsed)
    ensures r.value <= MaxUint32
  {
    if s == [] then Parsed(0, None)
    else
      var prev := ParseDigits(s[..|s| - 1]);
      if prev.err.Some? then prev
      else match DigitValue(s[|s| - 1])
        case None => Parsed(0, Some(ErrSyntax))
        case Some(d) =>
          if prev.value * 16 + d > MaxUint32 then Parsed(MaxUint32, Some(ErrRange))
          else Parsed(prev.value * 16 + d, None)
  }

  /** `strconv.ParseUint(s, 16, 32)`. */
  function ParseHexUint32(s: string): (r: Parsed)
    ensures r.value <= MaxUint32
    ensures r.err.None? ==> s != [] && forall i :: 0 <= i < |s| ==> DigitValue(s[i]).Some?
  {
    if s == [] then Parsed(0, Some(ErrSyntax)) else ParseDigitsValid(s); ParseDigits(s)
  }

  lemma {:induction false} ParseDigitsValid(s: string)
    ensures ParseDigits(s).err.None? ==> forall i :: 0 <= i < |s| ==> DigitValue(s[i]).Some?
  {
    if s != [] {
      ParseDigitsValid(s[..|s| - 1]);
    }
  }

  /** Parsing the rendering of a 32-bit value gives it back without error. */
  lemma {:induction false} ParseFormatHex(x: nat)
    requires x <= MaxUint32
    ensures ParseHexUint32(FormatHex(x)) == Parsed(x, None)
  {
    ParseDigitsFormat(x);
  }

  lemma {:induction false} ParseDigitsFormat(x: nat)
    requires x <= MaxUint32
    ensures ParseDigits(FormatHex(x)) == Parsed(x, None)
  {
    if x < 16 {
      assert FormatHex(x)[..0] == [];
      DigitValueOfHexDigit(x);
    } else {
      ParseDigitsFormat(x / 16);
      var s := FormatHex(x);
      assert s[..|s| - 1] == FormatHex(x / 16);
      DigitValueOfHexDigit(x % 16);
    }
  }
}
