// The ICAO aircraft address: a 32-bit value written as upper-case hexadecimal, read
// back with strconv.ParseUint(s, 16, 32), and stored through a pointer by the JSON
// and command-line decoders.

module Icao {
  import opened Text

  type Addr = x: nat | x <= MaxUint32

  const MinJsonSize: nat := 2

  datatype IcaoError = ErrWrongICAO | ErrNum(e: NumError)

  /** `ParseICAOAddr`: the parsed value, returned even when the parse fails. */
  function ParseICAOAddr(str: string): (r: (Addr, Option<NumError>))
    ensures r.0 == ParseHexUint32(str).value && r.1 == ParseHexUint32(str).err
    ensures r.1.None? ==> str != [] && forall i :: 0 <= i < |str| ==> DigitValue(str[i]).Some?
  {
    var p := ParseHexUint32(str);
    (p.value, p.err)
  }

  /** `ICAOAddr.String`: upper-case hexadecimal without leading zeros. */
  function String(a: Addr): (s: string)
    ensures 1 <= |s|
    ensures forall i :: 0 <= i < |s| ==> s[i] in HexDigits
    ensures a > 0 ==> s[0] != '0'
    ensures ParseICAOAddr(s) == (a, None)
  {
    ParseFormatHex(a);
    FormatHex(a)
  }

  /** `MarshalJSON`: the rendering between double quotes. */
  function MarshalJSON(a: Addr): (data: string)
    ensures |data| >= MinJsonSize && data[0] == '"' && data[|data| - 1] == '"'
    ensures data[1..|data| - 1] == String(a)
  {
    "\"" + String(a) + "\""
  }

  /** True when `UnmarshalJSON` goes on to parse: at least two bytes, quoted. */
  predicate Quoted(data: string)
  {
    |data| >= MinJsonSize && data[0] == '"' && data[|data| - 1] == '"'
  }

  /** What `UnmarshalJSON` leaves in the address and returns, starting from `current`. */
  function UnmarshalResult(current: Addr, data: string): (r: (Addr, Option<IcaoError>))
    ensures !Quoted(data) ==> r == (current, Some(ErrWrongICAO))
    ensures Quoted(data) ==>
              r.0 == ParseICAOAddr(data[1..|data| - 1]).0
              && (r.1.None? <==> ParseICAOAddr(data[1..|data| - 1]).1.None?)
  {
    if !Quoted(data) then (current, Some(ErrWrongICAO))
    else
      var (value, err) := ParseICAOAddr(data[1..|data| - 1]);
      (value, if err.None? then None else Some(ErrNum(err.value)))
  }

  /** Unmarshalling a marshalled address restores it without error, whatever was stored. */
  lemma UnmarshalMarshal(current: Addr, a: Addr)
    ensures UnmarshalResult(current, MarshalJSON(a)) == (a, None)
  {
  }

  /** A destination the pointer-receiver methods write through. */
  class AddrCell {
    var value: Addr

    constructor (v: Addr)
      ensures value == v
    {
      value := v;
    }

    /** `UnmarshalJSON`: an unquoted input is refused and leaves the address unchanged;
        otherwise the parse result is stored, even when the parse fails. */
    method UnmarshalJSON(data: string) returns (err: Option<IcaoError>)
      modifies this
      ensures (value, err) == UnmarshalResult(old(value), data)
    {
      if |data| < MinJsonSize || data[0] != '"' || data[|data| - 1] != '"' {
        return Some(ErrWrongICAO);
      }
      var (v, e) := ParseICAOAddr(data[1..|data| - 1]);
      value := v;
      err := if e.None? then None else Some(ErrNum(e.value));
    }

    /** `Set`: the parse result is stored, even when the parse fails. */
    method Set(str: string) returns (err: Option<NumError>)
      modifies this
      ensures (value, err) == ParseICAOAddr(str)
    {
      var (v, e) := ParseICAOAddr(str);
      value := v;
      err := e;
    }
  }
}
