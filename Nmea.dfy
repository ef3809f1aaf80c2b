// The NMEA serializer: an aircraft with a known position becomes an AIS-style
// payload whose MMSI is derived from the country code (MID), the vessel type and the
// ICAO address; values of every other shape are serialized element by element.

module Nmea {
  import opened Text
  import opened AircraftRecord
  import ModelFunctions

  const SpeedOverGroundScale: real := 10.0

  /** The vessel types of the MMSI. */
  const VesselTypeAircraft: int := 0
  const VesselTypeHelicopter: int := 1

  type Uint16 = x: nat | x < 0x1_0000

  datatype Serializer = Serializer(mmsiVessel: int, mid: Uint16)

  /** `MMSI`: 1, then the MID modulo 1000, then 1 for an aircraft or 5 for a
      helicopter (0 otherwise), then the address modulo 1000. */
  function MMSI(s: Serializer, addr: nat): (r: nat)
    ensures r % 1000 == addr % 1000
    ensures (r / 10000) % 1000 == s.mid % 1000
    ensures (r / 1000) % 10 == VesselDigit(s.mmsiVessel)
    ensures 10000000 <= r <= 19995999
  {
    var out := (s.mid % 1000) * 10000 + 10000000;
    var out := if s.mmsiVessel == VesselTypeAircraft then out + 1000
               else if s.mmsiVessel == VesselTypeHelicopter then out + 5000
               else out;
    MmsiDigits(s.mid % 1000, VesselDigit(s.mmsiVessel), addr % 1000);
    out + addr % 1000
  }

  /** The vessel digit of the MMSI. */
  function VesselDigit(vessel: int): nat
  {
    if vessel == VesselTypeAircraft then 1 else if vessel == VesselTypeHelicopter then 5 else 0
  }

  /** The decimal layout 1 MMM V AAA. */
  lemma MmsiDigits(m: nat, v: nat, a: nat)
    requires m < 1000 && v < 10 && a < 1000
    ensures var r := m * 10000 + 10000000 + v * 1000 + a;
      r % 1000 == a && (r / 10000) % 1000 == m && (r / 1000) % 10 == v
  {
    var r := m * 10000 + 10000000 + v * 1000 + a;
    assert r == ((1000 + m) * 10 + v) * 1000 + a;
    assert r / 1000 == (1000 + m) * 10 + v;
    assert r / 10000 == 1000 + m;
  }

  datatype NavigationStatus = Aground

  /** The AIS position report fields filled from an aircraft. */
  datatype Payload = Payload(
    mmsi: nat,
    longitude: real,
    latitude: real,
    positionAccuracy: bool,
    navigationStatus: NavigationStatus,
    speedOverGround: real,
    courseOverGround: real,
    trueHeading: int)

  /** `fieldFromAircraft`: the ground speed, when present, overrides the air speed;
      the course and heading come from the track when present. */
  function FieldFromAircraft(s: Serializer, a: Aircraft): (p: Payload)
    requires a.position.Some?
    ensures p.mmsi == MMSI(s, a.addr)
    ensures p.latitude == a.position.value.latitude && p.longitude == a.position.value.longitude
    ensures a.groundSpeed.Some? ==> p.speedOverGround == a.groundSpeed.value / SpeedOverGroundScale
    ensures a.groundSpeed.None? && a.airSpeed.Some? ==>
              p.speedOverGround == a.airSpeed.value / SpeedOverGroundScale
    ensures a.groundSpeed.None? && a.airSpeed.None? ==> p.speedOverGround == 0.0
    ensures a.track.Some? ==> p.courseOverGround == a.track.value && p.trueHeading == a.track.value.Floor
    ensures a.track.None? ==> p.courseOverGround == 0.0 && p.trueHeading == 0
  {
    var p := Payload(MMSI(s, a.addr), a.position.value.longitude, a.position.value.latitude,
                     true, Aground, 0.0, 0.0, 0);
    var p := if a.airSpeed.Some? then p.(speedOverGround := a.airSpeed.value / SpeedOverGroundScale) else p;
    var p := if a.groundSpeed.Some? then p.(speedOverGround := a.groundSpeed.value / SpeedOverGroundScale) else p;
    if a.track.Some? then p.(courseOverGround := a.track.value, trueHeading := a.track.value.Floor) else p
  }

  /** The values `Serialize` receives: an aircraft, a pointer to one (possibly nil), a
      slice of either, or anything else. */
  datatype Value =
    | OtherValue
    | AircraftValue(aircraft: Aircraft)
    | AircraftPointer(pointer: Option<Aircraft>)
    | AircraftValues(values: seq<Aircraft>)
    | AircraftPointers(pointers: seq<Option<Aircraft>>)

  /** How many levels of recursive calls a value still needs. */
  function ValueDepth(v: Value): nat
  {
    match v
    case AircraftValues(_) => 2
    case AircraftValue(_) => 1
    case AircraftPointers(_) => 1
    case _ => 0
  }

  function Depth(planes: seq<Value>): (d: nat)
    ensures d <= 2
  {
    if planes == [] then 0
    else
      var prev := Depth(planes[..|planes| - 1]);
      var last := ValueDepth(planes[|planes| - 1]);
      if prev < last then last else prev
  }

  lemma {:induction false} DepthAtLeast(planes: seq<Value>, i: nat)
    requires i < |planes|
    ensures ValueDepth(planes[i]) <= Depth(planes)
  {
    if i < |planes| - 1 {
      DepthAtLeast(planes[..|planes| - 1], i);
    }
  }

  /** A slice of aircraft converted to untyped values. */
  function BoxValues(values: seq<Aircraft>): (r: seq<Value>)
    ensures |r| == |values| && forall i :: 0 <= i < |values| ==> r[i] == AircraftValue(values[i])
    ensures Depth(r) <= 1
  {
    if values == [] then []
    else
      var r := BoxValues(values[..|values| - 1]) + [AircraftValue(values[|values| - 1])];
      assert r[..|r| - 1] == BoxValues(values[..|values| - 1]);
      r
  }

  /** A slice of aircraft pointers converted to untyped values. */
  function BoxPointers(pointers: seq<Option<Aircraft>>): (r: seq<Value>)
    ensures |r| == |pointers| && forall i :: 0 <= i < |pointers| ==> r[i] == AircraftPointer(pointers[i])
    ensures Depth(r) == 0
  {
    if pointers == [] then []
    else
      var r := BoxPointers(pointers[..|pointers| - 1]) + [AircraftPointer(pointers[|pointers| - 1])];
      assert r[..|r| - 1] == BoxPointers(pointers[..|pointers| - 1]);
      r
  }

  /** The parts one value contributes to the output, or None when rendering fails.
      `render` stands for building and printing the NMEA sentence of a payload. */
  function ItemParts(s: Serializer, render: Payload -> Option<string>, v: Value): Option<seq<string>>
    decreases ValueDepth(v), 0, 0
  {
    match v
    case OtherValue => Some([])
    case AircraftPointer(p) =>
      if p.Some? && p.value.position.Some? then
        match render(FieldFromAircraft(s, p.value))
        case None => None
        case Some(fields) => Some([fields, "\n"])
      else Some([])
    case AircraftValue(a) => Nested(Serialized(s, render, BoxPointers([Some(a)])))
    case AircraftValues(values) => Nested(Serialized(s, render, BoxValues(values)))
    case AircraftPointers(pointers) => Nested(Serialized(s, render, BoxPointers(pointers)))
  }

  /** The output of a recursive call, as one part. */
  function Nested(r: Option<string>): Option<seq<string>>
  {
    if r.None? then None else Some([r.value])
  }

  /** The parts of all values, in order; the first failure stops everything. */
  function SerializedParts(s: Serializer, render: Payload -> Option<string>, planes: seq<Value>): Option<seq<string>>
    decreases Depth(planes), 1, |planes|
  {
    if planes == [] then Some([])
    else
      var prefix := planes[..|planes| - 1];
      assert Depth(prefix) <= Depth(planes);
      DepthAtLeast(planes, |planes| - 1);
      match SerializedParts(s, render, prefix)
      case None => None
      case Some(prev) =>
        match ItemParts(s, render, planes[|planes| - 1])
        case None => None
        case Some(parts) => Some(prev + parts)
  }

  /** `Serialize` as a value: the parts joined with new lines. */
  function Serialized(s: Serializer, render: Payload -> Option<string>, planes: seq<Value>): Option<string>
    decreases Depth(planes), 2, 0
  {
    match SerializedParts(s, render, planes)
    case None => None
    case Some(parts) => Some(Join(parts, '\n'))
  }

  /** `Serialize`: each value in turn, recursing into aircraft values and slices;
      a failure returns at once. */
  method Serialize(s: Serializer, render: Payload -> Option<string>, planes: seq<Value>)
    returns (r: Option<string>)
    ensures r == Serialized(s, render, planes)
    decreases Depth(planes)
  {
    var output: seq<string> := [];
    for idx := 0 to |planes|
      invariant SerializedParts(s, render, planes[..idx]) == Some(output)
    {
      PartsSnoc(s, render, planes, idx, output);
      DepthAtLeast(planes, idx);
      match planes[idx]
      case OtherValue =>
        assert ItemParts(s, render, planes[idx]) == Some([]);
        assert output + [] == output;
      case AircraftValue(a) =>
        var data := Serialize(s, render, BoxPointers([Some(a)]));
        assert ItemParts(s, render, planes[idx]) == Nested(data);
        if data.None? {
          FailureStops(s, render, planes, idx + 1);
          return None;
        }
        output := output + [data.value];
      case AircraftPointer(p) =>
        if p.Some? && p.value.position.Some? {
          var fields := render(FieldFromAircraft(s, p.value));
          if fields.None? {
            FailureStops(s, render, planes, idx + 1);
            return None;
          }
          output := output + [fields.value, "\n"];
        } else {
          assert ItemParts(s, render, planes[idx]) == Some([]);
          assert output + [] == output;
        }
      case AircraftValues(values) =>
        var untyped := ModelFunctions.UntypeArray(BoxValues(values));
        var data := Serialize(s, render, untyped[..]);
        assert ItemParts(s, render, planes[idx]) == Nested(data);
        if data.None? {
          FailureStops(s, render, planes, idx + 1);
          return None;
        }
        output := output + [data.value];
      case AircraftPointers(pointers) =>
        var untyped := ModelFunctions.UntypeArray(BoxPointers(pointers));
        var data := Serialize(s, render, untyped[..]);
        assert ItemParts(s, render, planes[idx]) == Nested(data);
        if data.None? {
          FailureStops(s, render, planes, idx + 1);
          return None;
        }
        output := output + [data.value];
    }
    assert planes[..|planes|] == planes;
    r := Some(Join(output, '\n'));
  }

  /** One more value: the parts so far followed by the value's own parts. */
  lemma PartsSnoc(s: Serializer, render: Payload -> Option<string>, planes: seq<Value>, idx: nat,
                  output: seq<string>)
    requires idx < |planes| && SerializedParts(s, render, planes[..idx]) == Some(output)
    ensures SerializedParts(s, render, planes[..idx + 1])
         == (match ItemParts(s, render, planes[idx])
             case None => None
             case Some(parts) => Some(output + parts))
  {
    assert planes[..idx + 1][..idx] == planes[..idx];
  }

  lemma PartsUnfold(s: Serializer, render: Payload -> Option<string>, planes: seq<Value>)
    requires planes != []
    ensures SerializedParts(s, render, planes)
         == (match SerializedParts(s, render, planes[..|planes| - 1])
             case None => None
             case Some(prev) =>
               match ItemParts(s, render, planes[|planes| - 1])
               case None => None
               case Some(parts) => Some(prev + parts))
  {
  }

  /** A single value contributes its own parts. */
  lemma PartsSingle(s: Serializer, render: Payload -> Option<string>, v: Value)
    ensures SerializedParts(s, render, [v]) == ItemParts(s, render, v)
  {
    PartsSnoc(s, render, [v], 0, []);
    assert [v][..1] == [v];
    assert [v][..0] == [];
    match ItemParts(s, render, v)
    case None =>
    case Some(parts) => assert [] + parts == parts;
  }

  /** Once a prefix fails, the whole sequence fails. */
  lemma {:induction false} FailureStops(s: Serializer, render: Payload -> Option<string>, planes: seq<Value>, k: nat)
    requires k <= |planes| && SerializedParts(s, render, planes[..k]).None?
    ensures SerializedParts(s, render, planes).None?
    decreases |planes| - k
  {
    if k < |planes| {
      assert planes[..k + 1][..k] == planes[..k];
      FailureStops(s, render, planes, k + 1);
    } else {
      assert planes[..k] == planes;
    }
  }

  /** Values are serialized one after the other: the parts of two sequences are the
      parts of the first followed by those of the second. */
  lemma {:induction false} PartsAppend(s: Serializer, render: Payload -> Option<string>, a: seq<Value>, b: seq<Value>)
    requires SerializedParts(s, render, a).Some? && SerializedParts(s, render, b).Some?
    ensures SerializedParts(s, render, a + b)
         == Some(SerializedParts(s, render, a).value + SerializedParts(s, render, b).value)
    decreases |b|
  {
    if b == [] {
      assert a + b == a;
      assert SerializedParts(s, render, b) == Some([]);
      assert SerializedParts(s, render, a).value + [] == SerializedParts(s, render, a).value;
    } else {
      var b' := b[..|b| - 1];
      assert (a + b)[..|a + b| - 1] == a + b';
      assert (a + b)[|a + b| - 1] == b[|b| - 1];
      PartsUnfold(s, render, b);
      PartsUnfold(s, render, a + b);
      PartsAppend(s, render, a, b');
      var x, y, z := SerializedParts(s, render, a).value, SerializedParts(s, render, b').value,
                     ItemParts(s, render, b[|b| - 1]).value;
      assert (x + y) + z == x + (y + z);
    }
  }

  /** A nil aircraft, one without a position, and a value of any other type add nothing. */
  lemma SkippedValues(s: Serializer, render: Payload -> Option<string>, a: Aircraft)
    requires a.position.None?
    ensures ItemParts(s, render, AircraftPointer(None)) == Some([])
    ensures ItemParts(s, render, AircraftPointer(Some(a))) == Some([])
    ensures ItemParts(s, render, OtherValue) == Some([])
    ensures Serialized(s, render, [AircraftValue(a)]) == Some("")
  {
    var inner := BoxPointers([Some(a)]);
    assert inner == [AircraftPointer(Some(a))];
    PartsSingle(s, render, AircraftPointer(Some(a)));
    assert Serialized(s, render, inner) == Some("");
    assert ItemParts(s, render, AircraftValue(a)) == Some([""]);
    PartsSingle(s, render, AircraftValue(a));
  }

  /** An aircraft with a position gives its sentence followed by a new line. */
  lemma PositionedPointer(s: Serializer, render: Payload -> Option<string>, a: Aircraft)
    requires a.position.Some? && render(FieldFromAircraft(s, a)).Some?
    ensures Serialized(s, render, [AircraftPointer(Some(a))])
         == Some(render(FieldFromAircraft(s, a)).value + "\n" + "\n")
  {
    var fields := render(FieldFromAircraft(s, a)).value;
    PartsSingle(s, render, AircraftPointer(Some(a)));
    assert Join([fields, "\n"], '\n') == fields + "\n" + Join(["\n"], '\n');
  }
}
