// The per-aircraft aggregation of the decoder: the message history of one address is
// sorted into buckets by payload kind, and the aircraft record is rebuilt from the
// registry entry and the last message of each bucket.
//
// The extended-squitter payload decoder, the surface-position accessors, the CPR
// position decoding, the floating-point polar conversion and the clock are not part
// of this model: they are the parameters gathered in `Env`.

module Aggregation {
  import opened Text
  import opened ModeS
  import opened AircraftRecord
  import AirbornePosition
  import AirborneVelocity
  import Identification

  /** A qualified extended squitter: fourteen bytes. */
  type EsFrame = m: Frame | |m| == 14 witness seq(14, i => 0)

  /** The payload kinds `ExtendedSquitter.Decode` distinguishes. */
  datatype Kind =
    | IdentificationKind
    | OperationStatusKind
    | SurfacePositionKind
    | AirbornePositionKind
    | AirborneVelocityKind
    | OtherKind

  /** The fields of a world-database entry the record copies. */
  datatype Entry = Entry(
    registration: string,
    manufacturerName: string,
    model: string,
    operator: string,
    owner: string,
    built: Option<int>)

  /** The collaborators: `decode` is None when decoding fails; the two position
      decoders are None when CPR decoding fails; `now` is the clock reading. */
  datatype Env = Env(
    decode: Frame -> Option<Kind>,
    surfaceAltitude: EsFrame -> real,
    surfaceOdd: EsFrame -> bool,
    decodeSurface: (EsFrame, EsFrame) -> Option<Position>,
    decodeAirborne: (EsFrame, EsFrame) -> Option<Position>,
    polar: (real, real) -> (real, real),
    now: int)

  /** Every message is as the classifier builds it: at least one byte, and fourteen
      for an extended squitter. */
  predicate WellFormed(squitters: seq<QualifiedMessage>)
  {
    forall i :: 0 <= i < |squitters| ==>
      |squitters[i].frame| >= 1 && (squitters[i].ExtendedSquitter? ==> |squitters[i].frame| == 14)
  }

  function Last<T>(s: seq<T>): T
    requires |s| > 0
  {
    s[|s| - 1]
  }

  // ---------------------------------------------------------------------------
  // Buckets

  /** `extendedSquitter`: one bucket per payload kind, in arrival order. */
  datatype Buckets = Buckets(
    identification: seq<EsFrame>,
    operationStatus: seq<EsFrame>,
    surfacePosition: seq<EsFrame>,
    airbornePosition: seq<EsFrame>,
    airborneVelocity: seq<EsFrame>,
    lastPositionIsAirborne: bool)

  const NoBuckets: Buckets := Buckets([], [], [], [], [], false)

  /** The kind an extended squitter decodes to; None for other messages and failures. */
  function KindOf(env: Env, q: QualifiedMessage): Option<Kind>
  {
    if q.ExtendedSquitter? then env.decode(q.frame) else None
  }

  /** One turn of the bucketing loop. */
  function AddMessage(env: Env, b: Buckets, q: QualifiedMessage): Buckets
    requires q.ExtendedSquitter? ==> |q.frame| == 14
  {
    match KindOf(env, q)
    case None => b
    case Some(k) =>
      match k
      case IdentificationKind => b.(identification := b.identification + [q.frame])
      case OperationStatusKind => b.(operationStatus := b.operationStatus + [q.frame])
      case SurfacePositionKind =>
        b.(surfacePosition := b.surfacePosition + [q.frame], lastPositionIsAirborne := false)
      case AirbornePositionKind =>
        b.(airbornePosition := b.airbornePosition + [q.frame], lastPositionIsAirborne := true)
      case AirborneVelocityKind => b.(airborneVelocity := b.airborneVelocity + [q.frame])
      case OtherKind => b
  }

  /** The buckets of a message history. */
  function Bucketed(env: Env, squitters: seq<QualifiedMessage>): Buckets
    requires WellFormed(squitters)
  {
    if squitters == [] then NoBuckets
    else AddMessage(env, Bucketed(env, squitters[..|squitters| - 1]), Last(squitters))
  }

  /** The frames of the extended squitters that decode to kind `k`, in order. */
  function OfKind(env: Env, squitters: seq<QualifiedMessage>, k: Kind): (r: seq<Frame>)
    ensures |r| <= |squitters|
  {
    if squitters == [] then []
    else
      var prev := OfKind(env, squitters[..|squitters| - 1], k);
      if KindOf(env, Last(squitters)) == Some(k) then prev + [Last(squitters).frame] else prev
  }

  /** The kind of the last message that decodes to a position, if any. */
  function LastPosition(env: Env, squitters: seq<QualifiedMessage>): (r: Option<Kind>)
    ensures r.None? || r == Some(SurfacePositionKind) || r == Some(AirbornePositionKind)
  {
    if squitters == [] then None
    else
      var k := KindOf(env, Last(squitters));
      if k == Some(SurfacePositionKind) || k == Some(AirbornePositionKind) then k
      else LastPosition(env, squitters[..|squitters| - 1])
  }

  /** Each bucket holds exactly the frames of its kind, in arrival order; decoding
      failures, other kinds and messages that are not extended squitters are dropped. */
  lemma {:induction false} BucketsAreFilters(env: Env, squitters: seq<QualifiedMessage>)
    requires WellFormed(squitters)
    ensures var b := Bucketed(env, squitters);
      b.identification == OfKind(env, squitters, IdentificationKind)
      && b.operationStatus == OfKind(env, squitters, OperationStatusKind)
      && b.surfacePosition == OfKind(env, squitters, SurfacePositionKind)
      && b.airbornePosition == OfKind(env, squitters, AirbornePositionKind)
      && b.airborneVelocity == OfKind(env, squitters, AirborneVelocityKind)
  {
    if squitters != [] {
      var previous := squitters[..|squitters| - 1];
      PrefixWellFormed(squitters);
      BucketsAreFilters(env, previous);
      var b, q := Bucketed(env, previous), Last(squitters);
      assert Bucketed(env, squitters) == AddMessage(env, b, q);
      match KindOf(env, q)
      case None =>
      case Some(k) =>
    }
  }

  /** Dropping the last message keeps a history well formed. */
  lemma PrefixWellFormed(squitters: seq<QualifiedMessage>)
    requires WellFormed(squitters) && squitters != []
    ensures WellFormed(squitters[..|squitters| - 1])
  {
  }

  /** `lastPositionIsAirborne` tells whether the last position message is airborne; it
      is false when there is none. */
  lemma {:induction false} LastPositionIsAirborne(env: Env, squitters: seq<QualifiedMessage>)
    requires WellFormed(squitters)
    ensures Bucketed(env, squitters).lastPositionIsAirborne <==>
              LastPosition(env, squitters) == Some(AirbornePositionKind)
  {
    if squitters != [] {
      LastPositionIsAirborne(env, squitters[..|squitters| - 1]);
    }
  }

  /** A message that decodes to nothing the buckets keep may be removed from anywhere
      in the history without changing the buckets. */
  lemma {:induction false} SkippedMessage(env: Env, a: seq<QualifiedMessage>, q: QualifiedMessage,
                                          c: seq<QualifiedMessage>)
    requires WellFormed(a + [q] + c) && WellFormed(a + c)
    requires KindOf(env, q).None? || KindOf(env, q) == Some(OtherKind)
    ensures Bucketed(env, a + [q] + c) == Bucketed(env, a + c)
    decreases |c|
  {
    if c == [] {
      assert a + [q] + c == a + [q];
      assert (a + [q])[..|a|] == a;
      assert a + c == a;
    } else {
      var c' := c[..|c| - 1];
      assert (a + [q] + c)[..|a + [q] + c| - 1] == a + [q] + c';
      assert (a + c)[..|a + c| - 1] == a + c';
      assert Last(a + [q] + c) == Last(c) == Last(a + c);
      SkippedMessage(env, a, q, c');
    }
  }

  // ---------------------------------------------------------------------------
  // Partner frames

  /** The highest index below `k` whose parity is `odd`. */
  function SearchBelow<T>(dataSet: seq<T>, odd: bool, oddOf: T -> bool, k: nat): (r: Option<nat>)
    requires k <= |dataSet|
    ensures r.Some? ==> r.value < k && oddOf(dataSet[r.value]) == odd
    ensures r.Some? ==> forall j :: r.value < j < k ==> oddOf(dataSet[j]) != odd
    ensures r.None? ==> forall j :: 0 <= j < k ==> oddOf(dataSet[j]) != odd
  {
    if k == 0 then None
    else if oddOf(dataSet[k - 1]) == odd then Some(k - 1)
    else SearchBelow(dataSet, odd, oddOf, k - 1)
  }

  /** The partner `findFrame` looks for: the latest element of parity `odd` before the
      last one; the last element itself is never chosen. */
  function Partner<T>(dataSet: seq<T>, odd: bool, oddOf: T -> bool): (r: Option<nat>)
    ensures r.Some? ==> r.value + 1 < |dataSet| && oddOf(dataSet[r.value]) == odd
    ensures r.Some? ==> forall j :: r.value < j < |dataSet| - 1 ==> oddOf(dataSet[j]) != odd
    ensures r.None? ==> forall j :: 0 <= j < |dataSet| - 1 ==> oddOf(dataSet[j]) != odd
  {
    if |dataSet| < 2 then None else SearchBelow(dataSet, odd, oddOf, |dataSet| - 1)
  }

  /** `findFrame`: scans from the element before the last down to the first. */
  method FindFrame<T>(dataSet: seq<T>, odd: bool, oddOf: T -> bool) returns (r: Option<nat>)
    ensures r == Partner(dataSet, odd, oddOf)
  {
    var idx: int := |dataSet| - 2;
    while idx >= 0
      invariant -2 <= idx < |dataSet| - 1
      invariant Partner(dataSet, odd, oddOf) == (if idx >= 0 then SearchBelow(dataSet, odd, oddOf, idx + 1) else None)
      decreases idx + 2
    {
      if oddOf(dataSet[idx]) == odd {
        return Some(idx);
      }
      idx := idx - 1;
    }
    return None;
  }

  /** `frames`: the last element and the index of a partner of the opposite parity. */
  method FramesOf<T>(dataSet: seq<T>, oddOf: T -> bool) returns (first: T, other: Option<nat>)
    requires |dataSet| > 0
    ensures first == Last(dataSet)
    ensures other == Partner(dataSet, !oddOf(first), oddOf)
  {
    first := dataSet[|dataSet| - 1];
    other := FindFrame(dataSet, !oddOf(first), oddOf);
  }

  // ---------------------------------------------------------------------------
  // The record update

  function AirborneOdd(m: EsFrame): bool
  {
    AirbornePosition.OddFrame(m)
  }

  function AirborneAltitude(m: EsFrame): real
  {
    AirbornePosition.Altitude(m)
  }

  /** The position decoded from the last frame of a bucket and its partner. */
  function PairPosition(dataSet: seq<EsFrame>, oddOf: EsFrame -> bool,
                        decode: (EsFrame, EsFrame) -> Option<Position>): Option<Position>
    requires |dataSet| > 0
  {
    var last := Last(dataSet);
    match Partner(dataSet, !oddOf(last), oddOf)
    case None => None
    case Some(i) => decode(last, dataSet[i])
  }

  /** The update made from the last identification. */
  function WithIdentification(a: Aircraft, b: Buckets): Aircraft
  {
    if |b.identification| > 0 then
      var identification := Last(b.identification);
      a.(category := Identification.CategoryString(identification),
         identification := Identification.Callsign(identification))
    else a
  }

  /** The updates made from the position buckets. */
  function WithPosition(env: Env, a: Aircraft, b: Buckets): Aircraft
  {
    var (altitude, position) := PositionFields(env, a.altitude, a.position, b);
    a.(altitude := altitude, position := position)
  }

  /** The altitude and position after the position blocks, from those before. */
  function PositionFields(env: Env, altitude: real, position: Option<Position>, b: Buckets): (real, Option<Position>)
  {
    if b.lastPositionIsAirborne then
      FromBucket(altitude, position, b.airbornePosition, AirborneAltitude, AirborneOdd, env.decodeAirborne)
    else
      FromBucket(altitude, position, b.surfacePosition, env.surfaceAltitude, env.surfaceOdd, env.decodeSurface)
  }

  /** The altitude of the last frame of a position bucket, and the position decoded
      from it and its partner when the bucket holds two frames or more; a failed
      decoding keeps the position. */
  function FromBucket(altitude: real, position: Option<Position>, dataSet: seq<EsFrame>,
                      altitudeOf: EsFrame -> real, oddOf: EsFrame -> bool,
                      decode: (EsFrame, EsFrame) -> Option<Position>): (real, Option<Position>)
  {
    if |dataSet| == 0 then (altitude, position)
    else if |dataSet| == 1 then (altitudeOf(Last(dataSet)), position)
    else
      var decoded := PairPosition(dataSet, oddOf, decode);
      (altitudeOf(Last(dataSet)), if decoded.Some? then decoded else position)
  }

  /** The update made from the last velocity message, when it carries a speed. */
  function WithVelocity(env: Env, a: Aircraft, b: Buckets): Aircraft
  {
    if |b.airborneVelocity| == 0 then a
    else
      var lastVelocity := Last(b.airborneVelocity);
      var (speed, heading) := AirborneVelocity.Speed(lastVelocity, env.polar);
      if speed >= 0.0 then
        var a := if heading > 0.0 then a.(track := Some(heading)) else a;
        var a := if AirborneVelocity.IsGroundSpeed(lastVelocity) then a.(groundSpeed := Some(speed))
                 else a.(airSpeed := Some(speed));
        a.(baroVerticalRate := AirborneVelocity.IsBaroVerticalRate(lastVelocity),
           trueAirSpeed := AirborneVelocity.IsTrueAirSpeed(lastVelocity),
           verticalRate := AirborneVelocity.VerticalRate(lastVelocity),
           deltaBarometric := AirborneVelocity.DeltaBarometric(lastVelocity))
      else a
  }

  /** `OperationStatus.String`: not implemented by the decoder, always empty. */
  function OperationStatusString(m: EsFrame): string
  {
    ""
  }

  /** What `processExtendedSquitter` leaves in the record. */
  function Extended(env: Env, a: Aircraft, b: Buckets): Aircraft
  {
    var a := WithIdentification(a, b);
    var a := WithPosition(env, a, b);
    var a := WithVelocity(env, a, b);
    var a := if |b.operationStatus| > 0
             then a.(currentOperation := OperationStatusString(Last(b.operationStatus))) else a;
    a.(lastUpdate := env.now)
  }

  /** `processExtendedSquitter`: the record updated in the order of the source; the
      position and velocity blocks are the two methods below. */
  method ProcessExtendedSquitter(env: Env, aircraft: Aircraft, squitter: Buckets) returns (updated: Aircraft)
    ensures updated == Extended(env, aircraft, squitter)
  {
    updated := aircraft;
    if |squitter.identification| > 0 {
      var identification := squitter.identification[|squitter.identification| - 1];
      updated := updated.(category := Identification.CategoryString(identification));
      updated := updated.(identification := Identification.Callsign(identification));
    }
    updated := UpdatePosition(env, updated, squitter);
    updated := UpdateVelocity(env, updated, squitter);
    if |squitter.operationStatus| > 0 {
      updated := updated.(currentOperation := OperationStatusString(squitter.operationStatus[|squitter.operationStatus| - 1]));
    }
    updated := updated.(lastUpdate := env.now);
  }

  /** The altitude and position blocks of `processExtendedSquitter`. */
  method UpdatePosition(env: Env, aircraft: Aircraft, squitter: Buckets) returns (updated: Aircraft)
    ensures updated == WithPosition(env, aircraft, squitter)
  {
    updated := aircraft;
    if !squitter.lastPositionIsAirborne && |squitter.surfacePosition| > 0 {
      updated := updated.(altitude := env.surfaceAltitude(squitter.surfacePosition[|squitter.surfacePosition| - 1]));
    }
    if !squitter.lastPositionIsAirborne && |squitter.surfacePosition| > 1 {
      var lastPosition, otherPosition := FramesOf(squitter.surfacePosition, env.surfaceOdd);
      if otherPosition.Some? {
        var position := env.decodeSurface(lastPosition, squitter.surfacePosition[otherPosition.value]);
        if position.Some? {
          updated := updated.(position := position);
        }
      }
    }
    if squitter.lastPositionIsAirborne && |squitter.airbornePosition| > 0 {
      updated := updated.(altitude := AirbornePosition.Altitude(squitter.airbornePosition[|squitter.airbornePosition| - 1]));
    }
    if squitter.lastPositionIsAirborne && |squitter.airbornePosition| > 1 {
      var lastPosition, otherPosition := FramesOf(squitter.airbornePosition, AirborneOdd);
      if otherPosition.Some? {
        var position := env.decodeAirborne(lastPosition, squitter.airbornePosition[otherPosition.value]);
        if position.Some? {
          updated := updated.(position := position);
        }
      }
    }
  }

  /** The velocity block of `processExtendedSquitter`. */
  method UpdateVelocity(env: Env, aircraft: Aircraft, squitter: Buckets) returns (updated: Aircraft)
    ensures updated == WithVelocity(env, aircraft, squitter)
  {
    updated := aircraft;
    if |squitter.airborneVelocity| > 0 {
      var lastVelocity := squitter.airborneVelocity[|squitter.airborneVelocity| - 1];
      var (speed, heading) := AirborneVelocity.Speed(lastVelocity, env.polar);
      if speed >= 0.0 {
        if heading > 0.0 {
          updated := updated.(track := Some(heading));
        }
        if AirborneVelocity.IsGroundSpeed(lastVelocity) {
          updated := updated.(groundSpeed := Some(speed));
        } else {
          updated := updated.(airSpeed := Some(speed));
        }
        updated := updated.(baroVerticalRate := AirborneVelocity.IsBaroVerticalRate(lastVelocity));
        updated := updated.(trueAirSpeed := AirborneVelocity.IsTrueAirSpeed(lastVelocity));
        updated := updated.(verticalRate := AirborneVelocity.VerticalRate(lastVelocity));
        updated := updated.(deltaBarometric := AirborneVelocity.DeltaBarometric(lastVelocity));
      }
    }
  }

  // ---------------------------------------------------------------------------
  // What the record update promises

  /** Each step changes only its own fields. */
  lemma IdentificationFrame(a: Aircraft, b: Buckets)
    ensures var r := WithIdentification(a, b);
      r == a.(identification := r.identification, category := r.category)
  {
  }

  lemma PositionFrame(env: Env, a: Aircraft, b: Buckets)
    ensures var r := WithPosition(env, a, b);
      r == a.(altitude := r.altitude, position := r.position)
  {
  }

  lemma VelocityFrame(env: Env, a: Aircraft, b: Buckets)
    ensures var r := WithVelocity(env, a, b);
      r == a.(track := r.track, groundSpeed := r.groundSpeed, airSpeed := r.airSpeed,
              baroVerticalRate := r.baroVerticalRate, trueAirSpeed := r.trueAirSpeed,
              verticalRate := r.verticalRate, deltaBarometric := r.deltaBarometric)
  {
  }

  /** The record after the identification, position and velocity steps. */
  function Stepped(env: Env, a: Aircraft, b: Buckets): Aircraft
  {
    WithVelocity(env, WithPosition(env, WithIdentification(a, b), b), b)
  }

  lemma ExtendedStepped(env: Env, a: Aircraft, b: Buckets)
    ensures var s := Stepped(env, a, b);
      Extended(env, a, b)
      == s.(currentOperation := if |b.operationStatus| > 0 then "" else s.currentOperation,
            lastUpdate := env.now)
  {
  }

  /** Call sign and category come from the last identification, when there is one. */
  lemma ExtendedIdentification(env: Env, a: Aircraft, b: Buckets)
    ensures var r := Extended(env, a, b);
      if |b.identification| > 0 then
        r.identification == Identification.Callsign(Last(b.identification))
        && r.category == Identification.CategoryString(Last(b.identification))
      else
        r.identification == a.identification && r.category == a.category
  {
    var a1 := WithIdentification(a, b);
    var a2 := WithPosition(env, a1, b);
    PositionFrame(env, a1, b);
    VelocityFrame(env, a2, b);
    ExtendedStepped(env, a, b);
  }

  /** The altitude comes from the last element of the bucket `lastPositionIsAirborne`
      selects; an empty selected bucket keeps the altitude. */
  lemma ExtendedAltitude(env: Env, a: Aircraft, b: Buckets)
    ensures var r := Extended(env, a, b);
      if b.lastPositionIsAirborne then
        r.altitude == (if |b.airbornePosition| > 0 then AirbornePosition.Altitude(Last(b.airbornePosition))
                       else a.altitude)
      else
        r.altitude == (if |b.surfacePosition| > 0 then env.surfaceAltitude(Last(b.surfacePosition))
                       else a.altitude)
  {
    ExtendedPositionFields(env, a, b);
  }

  /** Only the position step writes the altitude and the position. */
  lemma ExtendedPositionFields(env: Env, a: Aircraft, b: Buckets)
    ensures Extended(env, a, b).altitude == PositionFields(env, a.altitude, a.position, b).0
    ensures Extended(env, a, b).position == PositionFields(env, a.altitude, a.position, b).1
  {
    var a1 := WithIdentification(a, b);
    var a2 := WithPosition(env, a1, b);
    IdentificationFrame(a, b);
    VelocityFrame(env, a2, b);
    ExtendedStepped(env, a, b);
  }

  /** The position rule for one bucket: the position changes only when the bucket
      holds at least two frames, the last one has a partner of the opposite parity, and
      decoding the pair succeeds; then it is the decoded position. */
  predicate PositionRule(r: Option<Position>, position: Option<Position>, dataSet: seq<EsFrame>,
                         oddOf: EsFrame -> bool, decode: (EsFrame, EsFrame) -> Option<Position>)
  {
    (|dataSet| < 2 ==> r == position)
    && (|dataSet| >= 2 ==>
          var partner := Partner(dataSet, !oddOf(Last(dataSet)), oddOf);
          if partner.Some? && decode(Last(dataSet), dataSet[partner.value]).Some?
          then r == decode(Last(dataSet), dataSet[partner.value])
          else r == position)
  }

  /** The position follows the rule for the bucket `lastPositionIsAirborne` selects. */
  lemma ExtendedPosition(env: Env, a: Aircraft, b: Buckets)
    ensures b.lastPositionIsAirborne ==>
              PositionRule(Extended(env, a, b).position, a.position, b.airbornePosition, AirborneOdd, env.decodeAirborne)
    ensures !b.lastPositionIsAirborne ==>
              PositionRule(Extended(env, a, b).position, a.position, b.surfacePosition, env.surfaceOdd, env.decodeSurface)
  {
    ExtendedPositionFields(env, a, b);
    if b.lastPositionIsAirborne {
      FromBucketPosition(a.altitude, a.position, b.airbornePosition, AirborneAltitude, AirborneOdd, env.decodeAirborne);
    } else {
      FromBucketPosition(a.altitude, a.position, b.surfacePosition, env.surfaceAltitude, env.surfaceOdd, env.decodeSurface);
    }
  }

  lemma FromBucketPosition(altitude: real, position: Option<Position>, dataSet: seq<EsFrame>,
                           altitudeOf: EsFrame -> real, oddOf: EsFrame -> bool,
                           decode: (EsFrame, EsFrame) -> Option<Position>)
    ensures PositionRule(FromBucket(altitude, position, dataSet, altitudeOf, oddOf, decode).1,
                         position, dataSet, oddOf, decode)
  {
  }

  /** A velocity message with a speed sets either the ground speed or the air speed,
      never both, and the track only for a positive heading; without one the velocity
      fields are kept. */
  lemma ExtendedVelocity(env: Env, a: Aircraft, b: Buckets)
    ensures var r := Extended(env, a, b);
      if |b.airborneVelocity| > 0 && AirborneVelocity.Speed(Last(b.airborneVelocity), env.polar).0 >= 0.0 then
        var m := Last(b.airborneVelocity);
        var (speed, heading) := AirborneVelocity.Speed(m, env.polar);
        r.track == (if heading > 0.0 then Some(heading) else a.track)
        && (AirborneVelocity.IsGroundSpeed(m) ==> r.groundSpeed == Some(speed) && r.airSpeed == a.airSpeed)
        && (!AirborneVelocity.IsGroundSpeed(m) ==> r.airSpeed == Some(speed) && r.groundSpeed == a.groundSpeed)
        && r.verticalRate == AirborneVelocity.VerticalRate(m)
        && r.deltaBarometric == AirborneVelocity.DeltaBarometric(m)
      else
        r.track == a.track && r.groundSpeed == a.groundSpeed && r.airSpeed == a.airSpeed
        && r.verticalRate == a.verticalRate && r.deltaBarometric == a.deltaBarometric
        && r.baroVerticalRate == a.baroVerticalRate && r.trueAirSpeed == a.trueAirSpeed
  {
    var a1 := WithIdentification(a, b);
    var a2 := WithPosition(env, a1, b);
    IdentificationFrame(a, b);
    PositionFrame(env, a1, b);
    ExtendedStepped(env, a, b);
  }

  /** The registry, address, status and format fields are never touched, and the
      last-update instant is the clock reading. */
  lemma ExtendedKeeps(env: Env, a: Aircraft, b: Buckets)
    ensures var r := Extended(env, a, b);
      r.registration == a.registration && r.manufacturerName == a.manufacturerName
      && r.model == a.model && r.operator == a.operator && r.owner == a.owner && r.built == a.built
      && r.icaoAddress == a.icaoAddress && r.addr == a.addr && r.identity == a.identity
      && r.lastFlightStatus == a.lastFlightStatus && r.lastDownlinkFormat == a.lastDownlinkFormat
      && r.lastType == a.lastType && r.lastSubType == a.lastSubType && r.flight == a.flight
      && r.lastUpdate == env.now
  {
    var a1 := WithIdentification(a, b);
    var a2 := WithPosition(env, a1, b);
    IdentificationFrame(a, b);
    PositionFrame(env, a1, b);
    VelocityFrame(env, a2, b);
    ExtendedStepped(env, a, b);
  }

  // ---------------------------------------------------------------------------
  // Building the record

  /** The record before the history is read: the registry entry, an identity of 0, and
      the format, type and subtype of the last message. */
  function Initial(squitters: seq<QualifiedMessage>, ref: Entry): (a: Aircraft)
    requires |squitters| > 0 && WellFormed(squitters)
  {
    var a := Empty.(registration := ref.registration, manufacturerName := ref.manufacturerName,
                    model := ref.model, operator := ref.operator, owner := ref.owner,
                    built := ref.built, identity := 0);
    var lastSquitter := Last(squitters);
    var a := a.(lastDownlinkFormat := DownlinkFormat(lastSquitter.frame));
    if lastSquitter.ExtendedSquitter? then
      a.(lastType := TypeCode(lastSquitter.frame), lastSubType := SubTypeCode(lastSquitter.frame))
    else a
  }

  predicate HasShortMessage(squitters: seq<QualifiedMessage>)
  {
    exists i :: 0 <= i < |squitters| && squitters[i].ShortMessage?
  }

  /** What `buildAircraft` returns. */
  function Built(env: Env, squitters: seq<QualifiedMessage>, ref: Entry): Aircraft
    requires |squitters| > 0 && WellFormed(squitters)
  {
    var a := Initial(squitters, ref);
    var a := if HasShortMessage(squitters) then a.(lastUpdate := env.now) else a;
    Extended(env, a, Bucketed(env, squitters))
  }

  /** `processShortMessage`: only the last-update instant changes. */
  method ProcessShortMessage(env: Env, aircraft: Aircraft) returns (updated: Aircraft)
    ensures updated == aircraft.(lastUpdate := env.now)
  {
    updated := aircraft.(lastUpdate := env.now);
  }

  /** `buildAircraft`: the registry entry and the last message's format first, then the
      history in order, then the update from the buckets. */
  method BuildAircraft(env: Env, squitters: seq<QualifiedMessage>, ref: Entry) returns (aircraft: Aircraft)
    requires |squitters| > 0 && WellFormed(squitters)
    ensures aircraft == Built(env, squitters, ref)
  {
    aircraft := Empty.(registration := ref.registration, manufacturerName := ref.manufacturerName,
                       model := ref.model, operator := ref.operator, owner := ref.owner,
                       built := ref.built, identity := 0);
    var lastSquitter := squitters[|squitters| - 1];
    aircraft := aircraft.(lastDownlinkFormat := DownlinkFormat(lastSquitter.frame));
    if lastSquitter.ExtendedSquitter? {
      aircraft := aircraft.(lastType := TypeCode(lastSquitter.frame));
      aircraft := aircraft.(lastSubType := SubTypeCode(lastSquitter.frame));
    }
    ghost var initial := aircraft;
    assert initial == Initial(squitters, ref);

    var extendedSquitters := NoBuckets;
    for idx := 0 to |squitters|
      invariant extendedSquitters == Bucketed(env, squitters[..idx])
      invariant aircraft == if HasShortMessage(squitters[..idx]) then initial.(lastUpdate := env.now) else initial
    {
      var genericSquitter := squitters[idx];
      assert squitters[..idx + 1][..idx] == squitters[..idx];
      assert Last(squitters[..idx + 1]) == genericSquitter;
      if genericSquitter.ExtendedSquitter? {
        var decoded := env.decode(genericSquitter.frame);
        if decoded.Some? {
          match decoded.value
          case IdentificationKind =>
            extendedSquitters := extendedSquitters.(identification := extendedSquitters.identification + [genericSquitter.frame]);
          case OperationStatusKind =>
            extendedSquitters := extendedSquitters.(operationStatus := extendedSquitters.operationStatus + [genericSquitter.frame]);
          case SurfacePositionKind =>
            extendedSquitters := extendedSquitters.(surfacePosition := extendedSquitters.surfacePosition + [genericSquitter.frame]);
            extendedSquitters := extendedSquitters.(lastPositionIsAirborne := false);
          case AirbornePositionKind =>
            extendedSquitters := extendedSquitters.(airbornePosition := extendedSquitters.airbornePosition + [genericSquitter.frame]);
            extendedSquitters := extendedSquitters.(lastPositionIsAirborne := true);
          case AirborneVelocityKind =>
            extendedSquitters := extendedSquitters.(airborneVelocity := extendedSquitters.airborneVelocity + [genericSquitter.frame]);
          case OtherKind =>
        }
      }
      if genericSquitter.ShortMessage? {
        aircraft := ProcessShortMessage(env, aircraft);
        assert squitters[..idx + 1][idx].ShortMessage?;
      } else {
        ShortMessagesOfPrefix(squitters, idx);
      }
    }
    assert squitters[..|squitters|] == squitters;
    aircraft := ProcessExtendedSquitter(env, aircraft, extendedSquitters);
  }

  lemma ShortMessagesOfPrefix(squitters: seq<QualifiedMessage>, idx: nat)
    requires idx < |squitters| && !squitters[idx].ShortMessage?
    ensures HasShortMessage(squitters[..idx + 1]) <==> HasShortMessage(squitters[..idx])
  {
    if HasShortMessage(squitters[..idx + 1]) {
      var i :| 0 <= i < idx + 1 && squitters[..idx + 1][i].ShortMessage?;
      assert squitters[..idx][i].ShortMessage?;
    }
    if HasShortMessage(squitters[..idx]) {
      var i :| 0 <= i < idx && squitters[..idx][i].ShortMessage?;
      assert squitters[..idx + 1][i].ShortMessage?;
    }
  }

  /** The registry fields are copied verbatim, the identity is 0, the format, type and
      subtype are those of the last message, and the update instant is the clock's. */
  lemma BuiltFromRegistry(env: Env, squitters: seq<QualifiedMessage>, ref: Entry)
    requires |squitters| > 0 && WellFormed(squitters)
    ensures var r := Built(env, squitters, ref);
      r.registration == ref.registration && r.manufacturerName == ref.manufacturerName
      && r.model == ref.model && r.operator == ref.operator && r.owner == ref.owner
      && r.built == ref.built && r.identity == 0
      && r.lastDownlinkFormat == DownlinkFormat(Last(squitters).frame)
      && (Last(squitters).ExtendedSquitter? ==>
            r.lastType == TypeCode(Last(squitters).frame) && r.lastSubType == SubTypeCode(Last(squitters).frame))
      && r.lastUpdate == env.now
  {
    var initial := Initial(squitters, ref);
    var a := if HasShortMessage(squitters) then initial.(lastUpdate := env.now) else initial;
    ExtendedKeeps(env, a, Bucketed(env, squitters));
  }
}
