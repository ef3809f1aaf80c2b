// Surveillance replies (DF4 altitude reply, DF5 identity reply): 56-bit frames
// DF(5) FS(3) DR(5) UM(6) AC-or-ID(13) parity(24).

module SurveillanceReply {
  import opened Bits
  import opened ModeS
  import opened AltitudeCode
  import opened IdentityCode

  /** The flight status: the three low bits of the first byte. */
  function FlightStatus(m: Frame): (fs: nat)
    requires |m| >= 1
    ensures fs < 8 && fs == ReadBits(m, 5, 3)
  {
    ByteField(m, 0, 5, 3);
    LowThree(m[0]);
    m[0] % 8
  }

  /** The altitude decoded from the 13 bits starting at bit 19. */
  function Altitude(m: Frame): (alt: real)
    requires |m| >= 4
    ensures ReadBits(m, 19, 13) < 0x2000 && alt == AltitudeFrom13Bits(ReadBits(m, 19, 13) as bv16)
  {
    AltitudeFrom13Bits(CodeField(m) as bv16)
  }

  /** The identity decoded from the same 13 bits. */
  function Identity(m: Frame): (squawk: nat)
    requires |m| >= 4
    ensures ReadBits(m, 19, 13) < 0x2000 && squawk == IdentityFrom12Bits(ReadBits(m, 19, 13) as bv16)
    ensures squawk <= 7777
  {
    IdentityFrom12Bits(CodeField(m) as bv16)
  }

  /** The parity bytes never influence the decoded altitude or identity. */
  lemma RepliesIgnoreParity(m: Frame, m': Frame)
    requires |m| >= 4 && |m'| >= 4 && m[..4] == m'[..4]
    ensures Altitude(m) == Altitude(m') && Identity(m) == Identity(m')
  {
    CodeFieldPrefix(m, m');
  }

  /** Frame 2000171806A983 reports 36000 ft. */
  lemma AltitudeReplyExample(m: Frame)
    requires m == [0x20, 0x00, 0x17, 0x18, 0x06, 0xA9, 0x83]
    ensures Altitude(m) == 36000.0
  {
    assert CodeField(m) == 0x1718;
    AltitudeExample();
  }

  /** Frame 2A00516D492B80 reports squawk 0356. */
  lemma IdentityReplyExample(m: Frame)
    requires m == [0x2A, 0x00, 0x51, 0x6D, 0x49, 0x2B, 0x80]
    ensures Identity(m) == 356
  {
    assert CodeField(m) == 0x116D;
    IdentityExample();
  }
}
