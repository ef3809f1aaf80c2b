// The network transporter's command-line parameter: `[direction>][format@]address`,
// for instance `bind>nmea@0.0.0.0:30003`, stored into a protocol configuration.

module NetProtocol {
  import opened Text

  const ProtocolTypeTCP: string := "tcp"
  const ProtocolTypeUDP: string := "udp"
  const ProtocolDial: string := "dial"
  const ProtocolBind: string := "bind"
  const DefaultProtocolFormat: string := "nmea"
  const DefaultAddr: string := "0.0.0.0:30003"

  /** `parseData`: the format before the first `@` and the address after it; without
      an `@` the default format, and the default address for an empty text. */
  function ParseData(str: string): (r: (string, string))
    ensures str == "" ==> r == (DefaultProtocolFormat, DefaultAddr)
    ensures str != "" && '@' !in str ==> r == (DefaultProtocolFormat, str)
    ensures '@' in str ==> r == (str[..IndexOf(str, '@')], str[IndexOf(str, '@') + 1..])
  {
    var addr := if str != "" then str else DefaultAddr;
    var splitter := Split(str, '@');
    SplitPieces(str, '@');
    if |splitter| > 1 then
      SplitFirst(str, '@');
      (splitter[0], Join(splitter[1..], '@'))
    else
      (DefaultProtocolFormat, addr)
  }

  /** A format without `@` and any address are read back from `format@address`. */
  lemma ParseDataFormatAddr(format: string, addr: string)
    requires '@' !in format
    ensures ParseData(format + "@" + addr) == (format, addr)
  {
    IndexOfAfter(format, '@', addr);
    var s := format + "@" + addr;
    assert s[..|format|] == format && s[|format| + 1..] == addr;
  }

  /** What `Set` stores as (direction, format, address), or None when it refuses the
      text: no `>` dials, one `>` names the direction, more are an error. */
  function SetOutcome(str: string): (r: Option<(string, string, string)>)
    ensures Count(str, '>') == 0 ==>
              r == Some((ProtocolDial, ParseData(str).0, ParseData(str).1))
    ensures Count(str, '>') == 1 ==>
              var i := IndexOf(str, '>');
              r == Some((str[..i], ParseData(str[i + 1..]).0, ParseData(str[i + 1..]).1))
    ensures r.None? <==> Count(str, '>') >= 2
  {
    var actionSplitter := Split(str, '>');
    SplitPieces(str, '>');
    if |actionSplitter| == 1 then
      var (format, addr) := ParseData(actionSplitter[0]);
      Some((ProtocolDial, format, addr))
    else if |actionSplitter| == 2 then
      SplitFirst(str, '>');
      assert actionSplitter[1..] == [actionSplitter[1]];
      var (format, addr) := ParseData(actionSplitter[1]);
      Some((actionSplitter[0], format, addr))
    else
      None
  }

  /** A direction and format without separators and an address without `>` are read
      back from `direction>format@address`. */
  lemma SetOutcomeRoundTrip(direction: string, format: string, addr: string)
    requires '>' !in direction && '>' !in format && '>' !in addr && '@' !in format
    ensures SetOutcome(direction + ">" + format + "@" + addr) == Some((direction, format, addr))
  {
    var data := format + "@" + addr;
    assert direction + ">" + format + "@" + addr == direction + ['>'] + data;
    SetOutcomeDirection(direction, data);
    ParseDataFormatAddr(format, addr);
  }

  /** The text before a single `>` is the direction. */
  lemma SetOutcomeDirection(direction: string, data: string)
    requires '>' !in direction && '>' !in data
    ensures SetOutcome(direction + ['>'] + data)
         == Some((direction, ParseData(data).0, ParseData(data).1))
  {
    var s := direction + ['>'] + data;
    IndexOfAfter(direction, '>', data);
    assert s[..|direction|] == direction && s[|direction| + 1..] == data;
    CountSplitAt(s, '>', |direction|);
  }

  /** `format@address` without a `>` dials. */
  lemma SetOutcomeDial(format: string, addr: string)
    requires '>' !in format && '>' !in addr && '@' !in format
    ensures SetOutcome(format + "@" + addr) == Some((ProtocolDial, format, addr))
  {
    assert '>' !in format + "@" + addr;
    ParseDataFormatAddr(format, addr);
  }

  /** `ProtocolConfig`. */
  class ProtocolConfig {
    var addr: string
    var format: string
    var direction: string
    var protocolType: string

    /** `NewProtocol`: only the protocol type is set. */
    constructor (pType: string)
      ensures protocolType == pType && addr == "" && format == "" && direction == ""
    {
      protocolType := pType;
      addr := "";
      format := "";
      direction := "";
    }

    /** `String`: `direction/type:format@address`. */
    function String(): (r: string)
      reads this
      ensures |r| == |direction| + |protocolType| + |format| + |addr| + 3
      ensures r[..|direction|] == direction && r[|direction|] == '/'
      ensures r[|r| - |addr| - 1..] == "@" + addr
    {
      direction + "/" + protocolType + ":" + format + "@" + addr
    }

    /** `IsValid`: an address is configured. */
    predicate IsValid()
      reads this
    {
      addr != ""
    }

    /** `Set`: stores the direction, format and address the text names, or refuses
        the text with an error and leaves the configuration unchanged. The protocol
        type is never changed. */
    method Set(str: string) returns (err: Option<string>)
      modifies this
      ensures SetOutcome(str).None? ==>
                err.Some? && addr == old(addr) && format == old(format) && direction == old(direction)
      ensures SetOutcome(str).Some? ==>
                err.None? && (direction, format, addr) == SetOutcome(str).value
      ensures protocolType == old(protocolType)
    {
      var actionSplitter := Split(str, '>');
      if |actionSplitter| == 1 {
        var (f, a) := ParseData(actionSplitter[0]);
        format := f;
        direction := ProtocolDial;
        addr := a;
        return None;
      } else if |actionSplitter| == 2 {
        var (f, a) := ParseData(actionSplitter[1]);
        format := f;
        direction := actionSplitter[0];
        addr := a;
        return None;
      }
      return Some("wrong format " + str + " (should be like dial>text@0.0.0.0:30003)");
    }
  }
}
