// The flight status (FS) field of surveillance and Comm-B replies and its textual
// description (ICAO Annex 10 Volume IV, section 3.1.2.6.5.1).

module FlightStatus {
  import opened Bits

  /** A flight status is a uint8; only 0 to 5 are named. */
  type Status = byte

  const AirborneNoAlertNoSPI: Status := 0
  const GroundNoAlertNoSPI: Status := 1
  const AirborneAlertNoSPI: Status := 2
  const GroundAlertNoSPI: Status := 3
  const AlertSPI: Status := 4
  const NoAlertSPI: Status := 5

  const Invalid: string := "invalid"

  /** `FlightStatus.String`: the description of a named status, "invalid" otherwise. */
  function String(f: Status): (s: string)
    ensures f >= 6 <==> s == Invalid
  {
    match f
    case 0 => "no alert, no SPI, aircraft is airborne"
    case 1 => "no alert, no SPI, aircraft is on-ground"
    case 2 => "alert, no SPI, aircraft is airborne"
    case 3 => "alert, no SPI, aircraft is on-ground"
    case 4 => "alert, SPI, aircraft is airborne or on-ground"
    case 5 => "no alert, SPI, aircraft is airborne or on-ground"
    case _ => Invalid
  }

  /** Where the aircraft is, as far as the status tells. */
  datatype Situation = Airborne | OnGround | Either

  /** The three facts a named status encodes. */
  datatype StatusFlags = StatusFlags(alert: bool, spi: bool, situation: Situation)

  /** The meaning of each named status, as the table of the standard gives it. */
  function Flags(f: Status): (r: StatusFlags)
    requires f < 6
    ensures r.spi <==> r.situation == Either
  {
    match f
    case 0 => StatusFlags(false, false, Airborne)
    case 1 => StatusFlags(false, false, OnGround)
    case 2 => StatusFlags(true, false, Airborne)
    case 3 => StatusFlags(true, false, OnGround)
    case 4 => StatusFlags(true, true, Either)
    case _ => StatusFlags(false, true, Either)
  }

  /** A description assembled from the three facts, phrase by phrase. */
  function Describe(flags: StatusFlags): string
  {
    (if flags.alert then "alert" else "no alert") + ", "
    + (if flags.spi then "SPI" else "no SPI") + ", aircraft is "
    + (match flags.situation
       case Airborne => "airborne"
       case OnGround => "on-ground"
       case Either => "airborne or on-ground")
  }

  /** Each named description is the one assembled from the status's facts. */
  lemma StringDescribesFlags(f: Status)
    requires f < 6
    ensures String(f) == Describe(Flags(f))
  {
    if f == 0 { DescribeAirborne(false); }
    else if f == 1 { DescribeOnGround(false); }
    else if f == 2 { DescribeAirborne(true); }
    else if f == 3 { DescribeOnGround(true); }
    else if f == 4 { DescribeAlertSPI(); }
    else { DescribeNoAlertSPI(); }
  }

  lemma DescribeAirborne(alert: bool)
    ensures Describe(StatusFlags(alert, false, Airborne))
         == (if alert then "alert, no SPI, aircraft is airborne" else "no alert, no SPI, aircraft is airborne")
  {
    if alert {
      assert "alert" + ", " == "alert, ";
      assert "alert, " + "no SPI" == "alert, no SPI";
      assert "alert, no SPI" + ", aircraft is " == "alert, no SPI, aircraft is ";
      assert "alert, no SPI, aircraft is " + "airborne" == "alert, no SPI, aircraft is airborne";
    } else {
      assert "no alert" + ", " == "no alert, ";
      assert "no alert, " + "no SPI" == "no alert, no SPI";
      assert "no alert, no SPI" + ", aircraft is " == "no alert, no SPI, aircraft is ";
      assert "no alert, no SPI, aircraft is " + "airborne" == "no alert, no SPI, aircraft is airborne";
    }
  }

  lemma DescribeOnGround(alert: bool)
    ensures Describe(StatusFlags(alert, false, OnGround))
         == (if alert then "alert, no SPI, aircraft is on-ground" else "no alert, no SPI, aircraft is on-ground")
  {
    if alert {
      assert "alert" + ", " == "alert, ";
      assert "alert, " + "no SPI" == "alert, no SPI";
      assert "alert, no SPI" + ", aircraft is " == "alert, no SPI, aircraft is ";
      assert "alert, no SPI, aircraft is " + "on-ground" == "alert, no SPI, aircraft is on-ground";
    } else {
      assert "no alert" + ", " == "no alert, ";
      assert "no alert, " + "no SPI" == "no alert, no SPI";
      assert "no alert, no SPI" + ", aircraft is " == "no alert, no SPI, aircraft is ";
      assert "no alert, no SPI, aircraft is " + "on-ground" == "no alert, no SPI, aircraft is on-ground";
    }
  }

  lemma DescribeAlertSPI()
    ensures Describe(StatusFlags(true, true, Either)) == "alert, SPI, aircraft is airborne or on-ground"
  {
    assert "alert" + ", " == "alert, ";
    assert "alert, " + "SPI" == "alert, SPI";
    assert "alert, SPI" + ", aircraft is " == "alert, SPI, aircraft is ";
    assert "alert, SPI, aircraft is " + "airborne or on-ground"
        == "alert, SPI, aircraft is airborne or on-ground";
  }

  lemma DescribeNoAlertSPI()
    ensures Describe(StatusFlags(false, true, Either)) == "no alert, SPI, aircraft is airborne or on-ground"
  {
    assert "no alert" + ", " == "no alert, ";
    assert "no alert, " + "SPI" == "no alert, SPI";
    assert "no alert, SPI" + ", aircraft is " == "no alert, SPI, aircraft is ";
    assert "no alert, SPI, aircraft is " + "airborne or on-ground" == "no alert, SPI, aircraft is airborne or on-ground";
  }

  /** The six named statuses encode six different combinations of facts. */
  lemma FlagsInjective(a: Status, b: Status)
    requires a < 6 && b < 6 && Flags(a) == Flags(b)
    ensures a == b
  {
  }

  /** The descriptions of the named statuses have six different lengths, none of them
      the length of "invalid". */
  function DescriptionLength(f: Status): nat
    requires f < 6
  {
    [38, 39, 35, 36, 45, 48][f]
  }

  lemma DescriptionLengths(f: Status)
    requires f < 6
    ensures |String(f)| == DescriptionLength(f)
  {
  }

  /** The six descriptions differ from each other and from "invalid". */
  lemma DescriptionsDistinct(a: Status, b: Status)
    requires a < 6 && b < 6 && a != b
    ensures String(a) != String(b)
    ensures String(a) != Invalid
  {
    DescriptionLengths(a);
    DescriptionLengths(b);
  }
}
