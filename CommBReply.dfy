// Comm-B replies (DF20 with altitude, DF21 with identity): 112-bit frames
// DF(5) FS(3) DR(5) UM(6) AC-or-ID(13) MB(56) parity(24). The first 32 bits have the
// layout of a surveillance reply, and the Go methods `FlightStatus`, `Altitude` and
// `Identity` of the two Comm-B types read them exactly as the surveillance reply's
// methods do, so they are `SurveillanceReply.FlightStatus`, `.Altitude` and
// `.Identity` applied to the 14-byte frame.

module CommBReply {
  import opened ModeS
  import opened SurveillanceReply

  /** The surveillance reply left when the 56-bit MB field is cut out of a Comm-B reply:
      its first four bytes and its parity. */
  function WithoutMessage(m: Frame): (s: Frame)
    requires |m| == 14
    ensures |s| == 7 && s[..4] == m[..4] && s[4..] == m[11..]
  {
    m[..4] + m[11..]
  }

  /** Cutting out the MB field leaves a surveillance reply with the same flight status,
      altitude and identity: a Comm-B reply decodes as the DF4/DF5 reply it extends. */
  lemma CommBMatchesSurveillance(m: Frame)
    requires |m| == 14
    ensures FlightStatus(m) == FlightStatus(WithoutMessage(m))
    ensures Altitude(m) == Altitude(WithoutMessage(m))
    ensures Identity(m) == Identity(WithoutMessage(m))
  {
    var s := WithoutMessage(m);
    assert m[0] == s[0];
    RepliesIgnoreParity(m, s);
  }
}
