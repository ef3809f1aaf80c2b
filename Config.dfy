// Two command-line parameters of the application configuration: the HTTP listener
// (`address/api-path`) and the NMEA vessel type (`aircraft` or `helicopter`).

module Config {
  import opened Text
  import Nmea

  // ---------------------------------------------------------------------------
  // HTTP listener

  const DefaultHTTPAPIPath: string := "/api"

  /** What `HTTPConfig.Set` stores as (address, API path): the text before the first
      `/` and the path from it on, or the whole text and the default path. */
  function HTTPSetOutcome(str: string): (r: (string, string))
    ensures '/' in str ==> r == (str[..IndexOf(str, '/')], str[IndexOf(str, '/')..])
    ensures '/' !in str ==> r == (str, DefaultHTTPAPIPath)
    ensures '/' !in r.0 && |r.1| >= 1 && r.1[0] == '/'
  {
    var splitter := Split(str, '/');
    SplitPieces(str, '/');
    if |splitter| > 1 then
      SplitFirst(str, '/');
      var apiPath := Join(splitter[1..], '/');
      var i := IndexOf(str, '/');
      assert str[i..] == "/" + str[i + 1..];
      (splitter[0], "/" + apiPath)
    else
      (str, DefaultHTTPAPIPath)
  }

  /** `HTTPConfig`. */
  class HTTPConfig {
    var addr: string
    var apiPath: string

    constructor ()
      ensures addr == "" && apiPath == ""
    {
      addr := "";
      apiPath := "";
    }

    /** `String`: the address followed by the API path. */
    function String(): (r: string)
      reads this
      ensures |r| == |addr| + |apiPath| && r[..|addr|] == addr && r[|addr|..] == apiPath
    {
      addr + apiPath
    }

    /** `Set`: replaces both fields; it never fails. */
    method Set(str: string) returns (err: Option<string>)
      modifies this
      ensures err.None? && (addr, apiPath) == HTTPSetOutcome(str)
    {
      var splitter := Split(str, '/');
      if |splitter| > 1 {
        var path := Join(splitter[1..], '/');
        addr, apiPath := splitter[0], "/" + path;
        return None;
      }
      addr, apiPath := str, DefaultHTTPAPIPath;
      return None;
    }
  }

  /** Rendering what `Set` stored gives back the text, with the default path appended
      when the text names none. */
  lemma HTTPSetString(str: string)
    ensures HTTPSetOutcome(str).0 + HTTPSetOutcome(str).1
         == (if '/' in str then str else str + DefaultHTTPAPIPath)
  {
    if '/' in str {
      var i := IndexOf(str, '/');
      assert str[..i] + str[i..] == str;
    }
  }

  /** Setting the rendering of a configuration whose address holds no `/` and whose
      path starts with one restores it. */
  lemma HTTPSetRoundTrip(addr: string, apiPath: string)
    requires '/' !in addr && |apiPath| >= 1 && apiPath[0] == '/'
    ensures HTTPSetOutcome(addr + apiPath) == (addr, apiPath)
  {
    var s := addr + apiPath;
    assert s == addr + ['/'] + apiPath[1..];
    IndexOfAfter(addr, '/', apiPath[1..]);
    assert s[..|addr|] == addr && s[|addr|..] == apiPath;
  }

  // ---------------------------------------------------------------------------
  // Vessel type

  /** `Vessel.String`: the name of a known vessel type, and the empty text otherwise. */
  function VesselString(v: int): (s: string)
    ensures v == Nmea.VesselTypeAircraft ==> s == "aircraft"
    ensures v == Nmea.VesselTypeHelicopter ==> s == "helicopter"
    ensures s == "" <==> v != Nmea.VesselTypeAircraft && v != Nmea.VesselTypeHelicopter
  {
    if v == Nmea.VesselTypeAircraft then "aircraft"
    else if v == Nmea.VesselTypeHelicopter then "helicopter"
    else ""
  }

  /** The vessel type a name stands for, if any. */
  function ParseVessel(str: string): (r: Option<int>)
    ensures r.Some? <==> str == "aircraft" || str == "helicopter"
    ensures r.Some? ==> VesselString(r.value) == str
  {
    if str == "aircraft" then Some(Nmea.VesselTypeAircraft)
    else if str == "helicopter" then Some(Nmea.VesselTypeHelicopter)
    else None
  }

  /** The name of a known vessel type is parsed back to it. */
  lemma ParseVesselString(v: int)
    requires v == Nmea.VesselTypeAircraft || v == Nmea.VesselTypeHelicopter
    ensures ParseVessel(VesselString(v)) == Some(v)
  {
  }

  /** A vessel type the pointer-receiver `Set` writes through. */
  class Vessel {
    var value: int

    constructor (v: int)
      ensures value == v
    {
      value := v;
    }

    /** `Set`: a known name stores its vessel type; any other text is refused with an
        error and leaves the value unchanged. */
    method Set(str: string) returns (err: Option<string>)
      modifies this
      ensures ParseVessel(str).None? ==> err.Some? && value == old(value)
      ensures ParseVessel(str).Some? ==> err.None? && value == ParseVessel(str).value
    {
      var vesselType: int;
      var ok: bool;
      if str == "aircraft" {
        vesselType, ok := Nmea.VesselTypeAircraft, true;
      } else if str == "helicopter" {
        vesselType, ok := Nmea.VesselTypeHelicopter, true;
      } else {
        vesselType, ok := 0, false;
      }
      if !ok {
        return Some("unknow vessel type " + str);
      }
      value := vesselType;
      return None;
    }
  }
}
