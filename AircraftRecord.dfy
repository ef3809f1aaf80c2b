// The aircraft record the decoder builds and the serializers consume, and its four
// status predicates over the last downlink format, flight status and identity.

module AircraftRecord {
  import FlightStatus
  import Text

  datatype Position = Position(latitude: real, longitude: real)

  /** The fields of an aircraft description the model reads or writes; instants are
      integers from an external clock, floating-point values are reals. */
  datatype Aircraft = Aircraft(
    identification: string,
    currentOperation: string,
    icaoAddress: nat,
    altitude: real,
    position: Text.Option<Position>,
    flight: string,
    addr: nat,
    groundSpeed: Text.Option<real>,
    airSpeed: Text.Option<real>,
    track: Text.Option<real>,
    trueAirSpeed: bool,
    baroVerticalRate: bool,
    deltaBarometric: int,
    identity: nat,
    lastUpdate: int,
    lastFlightStatus: int,
    lastDownlinkFormat: nat,
    verticalRate: int,
    category: string,
    registration: string,
    manufacturerName: string,
    model: string,
    operator: string,
    owner: string,
    built: Text.Option<int>,
    lastType: nat,
    lastSubType: nat)

  /** The zero value of the record. */
  const Empty: Aircraft :=
    Aircraft("", "", 0, 0.0, Text.None, "", 0, Text.None, Text.None, Text.None, false, false,
             0, 0, 0, 0, 0, 0, "", "", "", "", "", "", Text.None, 0, 0)

  /** The emergency squawk codes: unlawful interference, radio failure, emergency. */
  const SquawkHijacker: nat := 7500
  const SquawkRadioFailure: nat := 7600
  const SquawkMayday: nat := 7700

  /** The status fields are meaningful only after DF 4, 5 or 21. */
  predicate ReportsStatus(a: Aircraft)
  {
    a.lastDownlinkFormat == 4 || a.lastDownlinkFormat == 5 || a.lastDownlinkFormat == 21
  }

  function Emergency(a: Aircraft): (e: bool)
    ensures e ==> ReportsStatus(a)
  {
    ReportsStatus(a)
    && (a.identity == SquawkHijacker || a.identity == SquawkRadioFailure || a.identity == SquawkMayday)
  }

  function Alert(a: Aircraft): (r: bool)
    ensures r ==> ReportsStatus(a)
  {
    ReportsStatus(a)
    && (a.lastFlightStatus == 2 || a.lastFlightStatus == 3 || a.lastFlightStatus == 4)
  }

  function Ground(a: Aircraft): (r: bool)
    ensures r ==> ReportsStatus(a)
  {
    ReportsStatus(a) && (a.lastFlightStatus == 1 || a.lastFlightStatus == 3)
  }

  function Indent(a: Aircraft): (r: bool)
    ensures r ==> ReportsStatus(a)
  {
    ReportsStatus(a) && (a.lastFlightStatus == 4 || a.lastFlightStatus == 5)
  }

  /** The predicates read the facts encoded by the flight status: `Alert` is its alert
      flag, `Ground` its on-ground situation and `Indent` its SPI flag; an unnamed
      status sets none of them. */
  lemma PredicatesMatchFlags(a: Aircraft)
    requires ReportsStatus(a)
    ensures 0 <= a.lastFlightStatus < 6 ==>
              var flags := FlightStatus.Flags(a.lastFlightStatus);
              && (Alert(a) <==> flags.alert)
              && (Ground(a) <==> flags.situation == FlightStatus.OnGround)
              && (Indent(a) <==> flags.spi)
    ensures !(0 <= a.lastFlightStatus < 6) ==> !Alert(a) && !Ground(a) && !Indent(a)
  {
  }

  /** An aircraft is never both on the ground and identing, status 3 is an alert on the
      ground and status 4 an alert with SPI. */
  lemma PredicateCombinations(a: Aircraft)
    ensures !(Ground(a) && Indent(a))
    ensures ReportsStatus(a) && a.lastFlightStatus == 3 ==> Alert(a) && Ground(a) && !Indent(a)
    ensures ReportsStatus(a) && a.lastFlightStatus == 4 ==> Alert(a) && Indent(a) && !Ground(a)
  {
  }

  /** An emergency is exactly one of the three emergency squawks after DF 4, 5 or 21. */
  lemma EmergencySquawks(a: Aircraft)
    ensures Emergency(a) <==> ReportsStatus(a) && a.identity in {7500, 7600, 7700}
  {
  }
}
