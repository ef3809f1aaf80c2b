# adsb1090 Mode S / ADS-B decoding core, in Dafny

This project models the decoding engine of adsb1090, a Mode S and ADS-B receiver.
Raw 1090 MHz replies arrive as 7-byte (56-bit) or 14-byte (112-bit) frames. The
engine:

- checks their parity with the CRC-24 of ICAO Annex 10 Volume IV, section 3.1.2.3.3,
  using generator 0x1FFF409;
- classifies them by downlink format (DF) into short messages, long messages and
  extended squitters;
- decodes their fields: the 13-bit altitude code, the 13-bit identity (squawk)
  code, the flight status, and the extended-squitter identification, airborne
  position and airborne velocity messages of RTCA DO-260B section 2.2.3.2;
- aggregates the history of one aircraft address into an aircraft record;
- runs the `Process` pipeline: classify, check, look up the registry, store, build,
  hand to each transporter;
- serializes aircraft as NMEA/AIS payloads and parses the command-line values for
  network transports, the HTTP endpoint and the vessel type;
- in its C demodulator, sorts and searches ICAO address lists, folds I/Q samples
  into magnitude indices, tests the preamble and slices magnitudes into a frame.

Layout, one module per file:

- `Bits`: bytes as `0..255` integers, MSB-first bit reading (`ReadBits`), and the
  arithmetic of bit strings.
- `Text`: the string helpers the Go code relies on: split, join, hex.
- `Crc`: the parity engine. `checksum24` is a long division on an `array<bool>`,
  the mask table an `array<nat>`, and the table-driven sum a loop. All three are
  proved against one bit-serial specification.
- `ModeS`, `LongMessage`, `AltitudeCode`, `IdentityCode`, `SurveillanceReply`,
  `CommBReply`, `Identification`, `AirbornePosition`, `AirborneVelocity`,
  `FlightStatus`, `AircraftRecord`: the pure decoders, as functions over byte
  sequences.
- `ModelFunctions`: the Gray-code loop and the untyped copy, as methods.
- `Icao`, `Unique`, `NetProtocol`, `Config`: the small types. Values whose Go
  methods write through a pointer receiver become classes.
- `Aggregation`: the per-address buckets, the partner search for CPR pairs, and
  the building of the aircraft record.
- `Decoder`: the configurators and the `Process` object. The store is a map from
  address to message sequence, and transporter calls become a delivery trace.
- `Nmea`: the MMSI arithmetic, the field selection and the recursive `Serialize`
  dispatch.
- `Rtlsdr`: the C helpers: gnome sort, binary search, I/Q folding, preamble test
  and `decodeMessage`.

## Model

| member | source | states |
|---|---|---|
| Crc.Checksum24BitSerial | internal/binary/crc.go:33-49 | the bit-serial long division returns the remainder of the specification, below 2^24 |
| Crc.MakeCRCTable | internal/binary/crc.go:72-96 | the 256 filled entries are the table function, one remainder per bit position |
| Crc.SetTableEntry | internal/binary/crc.go:84-91 | one turn of the loop: entry `idx` becomes the bit-serial checksum of the buffer whose only set bit is `idx`, and the entries before it are kept |
| Crc.CrcTableEntry | internal/binary/crc.go:82-91 | entry `off+i` is the remainder of the buffer whose only set bit is bit `i`, MSB first |
| Crc.Checksum24 | internal/binary/crc.go:52-69 | for a table of 24-bit entries, the loop's full `uint32` XOR of the entries of the set bits at `256-bitLength` onward equals the 24-bit table checksum; result below 2^24 |
| Crc.TableStep | internal/binary/crc.go:57-66 | one turn of the loop: XOR-ing the entry of a set bit (and nothing for a clear bit) advances the checksum by that bit |
| Crc.XorWordIsUint32Xor | internal/binary/crc.go:64 | on values below 2^24 the 24-bit XOR of the specification is Go's `uint32` `^`: the top eight bits are zero on both sides |
| Crc.TableMatchesSerial | internal/binary/crc.go:24-69 | for at most 32 bytes, the table-driven checksum equals the bit-serial one |
| Crc.ChecksumSquitter | internal/binary/crc.go:24-31 | the squitter checksum equals the bit-serial checksum with generator 0x1FFF409 |
| Crc.PolynomTopBit | internal/binary/crc.go:21 | the 25-bit generator has its top bit set, so each division step clears its bit |
| Crc.StepPrefix | internal/binary/crc.go:37-45 | one division step leaves earlier bits untouched and clears the current bit |
| Crc.RunClearsPrefix | internal/binary/crc.go:37-46 | after the loop reaches `n`, every bit before `n` is zero |
| Crc.RemainderLinear | internal/binary/crc.go:33-49 | the remainder of `a XOR b` is the XOR of the remainders |
| Crc.RemainderZeros | internal/binary/crc.go:33-49 | an all-zero input has remainder zero |
| Crc.RemainderLeadingZeros | internal/binary/crc.go:55-64 | leading zero bits do not change the remainder, which is why the table can be indexed at an offset |
| Crc.SquitterZero | internal/binary/crc.go:24-31 | the checksum of an all-zero input is 0 |
| Crc.SquitterLinear | internal/binary/crc.go:24-31 | the checksum is XOR-linear for inputs of equal length |
| Crc.XorWordCancel | internal/model/adsb_mode-s.go:129-147 | XOR with the same remainder twice gives the address back |
| ModeS.DownlinkFormat | internal/model/adsb_mode-s.go:85-87 | the DF is the top five bits of byte 0, in 0..31 |
| ModeS.ParityInterrogator | internal/model/adsb_mode-s.go:90-95 | the parity field is the last 24 bits, below 2^24 |
| ModeS.ParityBits | internal/model/adsb_mode-s.go:90-95 | the parity field is the big-endian value of the last three bytes |
| ModeS.Qualify | internal/model/adsb_mode-s.go:98-125 | DF 17/18/19 at 14 bytes is an extended squitter, DF 16/20/21/24 at 14 bytes a long message, DF 0/4/5/11 at 7 bytes a short message, each as an iff; anything else is the unsupported-format error carrying DF and length |
| ModeS.QualifyAccepts | internal/model/adsb_mode-s.go:101-122 | a frame is accepted exactly for those (DF, length) pairs, and the three classes are pairwise disjoint |
| ModeS.CheckSum | internal/model/adsb_mode-s.go:150-163 | an error comes back iff the DF is 11, 17 or 18 and the checksum of the payload differs from the parity field; that error is the wrong-CRC error |
| ModeS.IcaoAddrChecksum | internal/model/adsb_mode-s.go:129-147 | the recovered address is below 2^24, and 0 for DFs without address parity |
| ModeS.IcaoAddrRecovers | internal/model/adsb_mode-s.go:129-147 | when the parity field is the payload checksum XOR an address, that address is recovered exactly |
| ModeS.String | internal/model/adsb_mode-s.go:166-168 | the text is two hex digits per byte and decodes back to the frame |
| LongMessage.Message | internal/model/adsb_long_message.go:23-25 | the message drops the first four bytes: byte `i` is frame byte `i+4` |
| LongMessage.MessageOfFullFrame | internal/model/adsb_long_message.go:23-25 | for a 14-byte frame the message has 10 bytes, the first seven being frame bytes 4..10 |
| LongMessage.AircraftAddress | internal/model/adsb_long_message.go:18-20 | a long message reports address 0 whatever its content |
| LongMessage.Name | internal/model/adsb_long_message.go:10-30 | the name is "long message" whatever the frame |
| AltitudeCode.AltitudeFrom13Bits | internal/model/altitude.go:3-48 | no bit set gives -1; with M set it is the metric units times 3.28084 (M tested first); with Q set it is 25·N-1000, within [-1000, 50175]; with M and Q clear it is -1 |
| AltitudeCode.AltitudeIgnoresHighBits | internal/model/altitude.go:4-16 | bits above bit 12 do not influence the altitude |
| AltitudeCode.AltitudeExample | internal/model/adsb_surveillance_reply_test.go:15-31 | code 0x1718 decodes to 36000 feet |
| IdentityCode.IdentityFrom12Bits | internal/model/identity.go:3-21 | every squawk is at most 7777 |
| IdentityCode.Octal | internal/model/identity.go:17-20 | one digit term `bit1 + bit2<<1 + bit4<<2` is below 8 |
| IdentityCode.IdentityAsDigits | internal/model/identity.go:17-20 | the squawk is 1000·A + 100·B + 10·C + D, each digit three interleaved bits below 8 |
| IdentityCode.IdentityDigits | internal/model/identity.go:17-20 | every decimal digit of a squawk is at most 7 |
| IdentityCode.IdentityRoundTrip | internal/model/identity.go:4-20 | placing the octal digits A, B, C, D in their C1..D4 positions and decoding gives back 1000·A+100·B+10·C+D |
| IdentityCode.EncodedDigits | internal/model/identity.go:4-15 | the bits read back from the C1..D4 positions are the digits placed there |
| IdentityCode.DecimalOfOctal | internal/model/identity.go:17-20 | the decimal digits of 1000·A+100·B+10·C+D are A, B, C and D when each is below 8 |
| IdentityCode.IdentityIgnoresUnusedBits | internal/model/identity.go:4-15 | the X bit (0x40) and bits above bit 12 are never read |
| IdentityCode.IdentityZero | internal/model/identity.go:17-20 | the zero code is squawk 0000 |
| IdentityCode.IdentityExample | internal/model/adsb_surveillance_reply_test.go:38-54 | code 0x116D is squawk 356 |
| SurveillanceReply.FlightStatus | internal/model/adsb_surveillance_reply.go:47-49 | the flight status is the low three bits of byte 0 |
| SurveillanceReply.Altitude | internal/model/adsb_surveillance_reply.go:52-54 | the altitude decodes the 13 bits from bit 19 with the altitude code |
| SurveillanceReply.Identity | internal/model/adsb_surveillance_reply.go:67-69 | the identity decodes the same 13 bits with the squawk code, at most 7777 |
| SurveillanceReply.RepliesIgnoreParity | internal/model/adsb_surveillance_reply.go:52-69 | frames agreeing on bytes 0..3 have the same altitude and identity, so the parity bytes never matter |
| SurveillanceReply.AltitudeReplyExample | internal/model/adsb_surveillance_reply_test.go:15-31 | frame 2000171806A983 reports 36000 feet |
| SurveillanceReply.IdentityReplyExample | internal/model/adsb_surveillance_reply_test.go:38-54 | frame 2A00516D492B80 reports squawk 356 |
| CommBReply.CommBMatchesSurveillance | internal/model/adsb_comm_b_reply.go:45-68 | the Comm-B methods read the same header bits as the surveillance reply: with its MB field cut out, a Comm-B frame has the same flight status, altitude and identity |
| Identification.AsciiTableSize | internal/model/adsb_identification.go:12 | the character table has 64 entries, so every 6-bit index is in range |
| Identification.Callsign | internal/model/adsb_identification.go:25-39 | the callsign has exactly 8 characters, each from the table |
| Identification.CallsignGroups | internal/model/adsb_identification.go:27-38 | character `k` is the table entry of the `k`-th 6-bit group of message bytes 1..6, MSB first |
| Identification.Category | internal/model/adsb_identification.go:47-49 | the category is the low three bits of message byte 0, the subtype code |
| Identification.CategoryName | internal/model/adsb_identification.go:57-96 | each byte TC<<3\|CA names one of the 18 categories; "no category information" iff the type code is outside 2..4, the category is 0, or TC 2 with CA 2 |
| Identification.CategoryTableSurface | internal/model/adsb_identification.go:59-64 | type code 2: CA 1 is a surface emergency vehicle, CA 3 a surface service vehicle, CA 4 to 7 a ground obstruction |
| Identification.CategoryTableLight | internal/model/adsb_identification.go:65-78 | type code 3: CA 1 to 7 name glider, lighter-than-air, parachutist, ultralight, reserved, UAV and space vehicle in that order |
| Identification.CategoryTableAircraft | internal/model/adsb_identification.go:79-84 | type code 4: CA 1 to 3 name the light, medium 1 and medium 2 weight classes |
| Identification.CategoryTableHeavy | internal/model/adsb_identification.go:85-92 | type code 4: CA 4 to 7 name high vortex, heavy, high performance and rotorcraft |
| Identification.CategoryString | internal/model/adsb_identification.go:57-96 | the same rule stated over the frame's type code and category |
| Identification.CategoryNamesReached | internal/model/adsb_identification.go:98-117 | every one of the 18 names is the answer for some byte |
| Identification.Name | internal/model/adsb_identification.go:13-44 | the name is "identification" whatever the frame |
| AirbornePosition.SurveillanceStatus | internal/model/adsb_airborne_position.go:66-68 | the status is two bits of message byte 0, in 0..3 |
| AirbornePosition.SingleAntennaFlag | internal/model/adsb_airborne_position.go:71-73 | the flag is the low bit of message byte 0 |
| AirbornePosition.TimeUTC | internal/model/adsb_airborne_position.go:83-85 | the flag is bit 3 of message byte 2 |
| AirbornePosition.OddFrame | internal/model/adsb_airborne_position.go:88-90 | the flag is bit 2 of message byte 2 |
| AirbornePosition.EncodedAltitude | internal/model/adsb_airborne_position.go:76-80 | the 12-bit field `msg[1]<<4 \| msg[2]>>4`, below 4096 |
| AirbornePosition.EncodedLatitude | internal/model/adsb_airborne_position.go:93-99 | the 17-bit latitude from message bytes 2..4, below 131072 |
| AirbornePosition.EncodedLongitude | internal/model/adsb_airborne_position.go:102-108 | the 17-bit longitude from message bytes 4..6, below 131072 |
| AirbornePosition.AltitudeAsWritten | internal/model/adsb_airborne_position.go:28-58 | the altitude as written: -1 for every type code 9..18, the shifted 12-bit field times 3.28084 for 20..22, 0 otherwise |
| AirbornePosition.AltitudeAsWrittenExample | internal/model/adsb_airborne_position.go:28-58 | a barometric message coding 38000 feet yields -1 as written |
| AirbornePosition.BaroAltitude | internal/model/adsb_airborne_position.go:40-50 | with Q set, 25·N-1000 over the 11 remaining bits; with Q clear, -1 |
| AirbornePosition.Altitude | internal/model/adsb_airborne_position.go:28-58 | the intended altitude: the barometric decoding of the encoded field for type codes 9..18, meters converted to feet for 20..22, 0 otherwise |
| AirbornePosition.BaroMatchesAcCode | internal/model/altitude.go:40-44 | the barometric decoding agrees with the 13-bit altitude code once the M bit is inserted |
| AirbornePosition.AltitudeExample | internal/model/adsb_airborne_position.go:28-58 | message 58C382... has type code 11 and altitude 38000 feet |
| AirbornePosition.Name | internal/model/adsb_airborne_position.go:13-63 | the name is "airborne position" whatever the frame |
| AirborneVelocity.SubType | internal/model/adsb_airborne_velocity.go:49-51 | the subtype is the low three bits of message byte 0 |
| AirborneVelocity.IsBaroVerticalRate | internal/model/adsb_airborne_velocity.go:54-56 | the flag is message bit 35 |
| AirborneVelocity.SubTypeFields | internal/model/adsb_airborne_velocity.go:63-70 | two direction flags and two 10-bit values, each below 1024 |
| AirborneVelocity.IsTrueAirSpeed | internal/model/adsb_airborne_velocity.go:73-81 | true iff the subtype is 3 or 4 and the airspeed-type bit is set |
| AirborneVelocity.IsGroundSpeed | internal/model/adsb_airborne_velocity.go:140-147 | true iff the subtype is 1 or 2 |
| AirborneVelocity.VerticalRate | internal/model/adsb_airborne_velocity.go:84-92 | ±(V-1)·64, negative iff the sign bit is set, within ±32640; V = 0 gives the 32-bit wrapped value |
| AirborneVelocity.DeltaBarometric | internal/model/adsb_airborne_velocity.go:95-108 | 0 when the 7-bit value is 0, otherwise ±25·(v-1), within ±3150 |
| AirborneVelocity.GroundSpeedVector | internal/model/adsb_airborne_velocity.go:110-125 | each component is v-1, negated and scaled by the factor only when its direction bit is set |
| AirborneVelocity.AirSpeedPolarVector | internal/model/adsb_airborne_velocity.go:127-137 | speed is factor·(AS-1); heading is hdg·360/1024 in [0, 360) when the status bit is set, otherwise -1 |
| AirborneVelocity.Speed | internal/model/adsb_airborne_velocity.go:150-175 | (-1,-1) when the 22 subtype-specific bits are zero or the subtype is outside 1..4; subtypes 1 and 2 go through the polar conversion with factors 1 and 2; subtypes 3 and 4 are the polar vector with factors 1 and 4 |
| AirborneVelocity.GroundSpeedExample | internal/model/adsb_airborne_velocity_test.go:66-92 | the ground-speed fixture has vertical rate -832 and delta 550 |
| AirborneVelocity.AirSpeedExample | internal/model/adsb_airborne_velocity_test.go:66-92 | the airspeed fixture has vertical rate -2304, delta 0 and speed (375, 243.984375) |
| AirborneVelocity.Name | internal/model/adsb_airborne_velocity.go:42-61 | the name is "airborne velocity" whatever the frame |
| ModelFunctions.GrayToBinary | internal/model/model.go:37-61 | the loop result is the reference decoding, each bit being the parity of the Gray bits at and above it |
| ModelFunctions.DecodeGray | internal/model/model.go:36-61 | decoding the Gray code of any 32-bit value gives the value back |
| ModelFunctions.GrayOfDecode | internal/model/model.go:36-61 | encoding a decoded value gives the code back |
| ModelFunctions.GrayInjective | internal/model/model.go:36-61 | distinct values have distinct Gray codes |
| ModelFunctions.DecodeStep | internal/model/model.go:55-57 | below the top, each decoded bit is the Gray bit XOR the decoded bit above it |
| ModelFunctions.LeadingBitKept | internal/model/model.go:44-53 | the decoded value's top `k` bits are clear iff the code's are, so the leading set bit is kept |
| ModelFunctions.GrayExamples | internal/model/model_test.go:13-20 | the Gray codes 0,1,3,2,6,7,5,4 decode to 0..7 |
| ModelFunctions.UntypeArray | internal/model/model.go:27-34 | the new array holds the input's elements, in order |
| FlightStatus.String | internal/model/flight_status.go:22-38 | a value is "invalid" iff it is 6 or more |
| FlightStatus.Flags | internal/model/flight_status.go:6-19 | the SPI flag is set exactly when the situation is "airborne or on-ground" |
| FlightStatus.StringDescribesFlags | internal/model/flight_status.go:23-35 | each of the values 0..5 is described by its alert, SPI and situation flags |
| FlightStatus.DescribeAirborne | internal/model/flight_status.go:24-29 | the airborne descriptions, with and without alert |
| FlightStatus.DescribeOnGround | internal/model/flight_status.go:26-31 | the on-ground descriptions, with and without alert |
| FlightStatus.DescribeAlertSPI | internal/model/flight_status.go:32-33 | the alert-with-SPI description |
| FlightStatus.DescribeNoAlertSPI | internal/model/flight_status.go:34-35 | the SPI-without-alert description |
| FlightStatus.FlagsInjective | internal/model/flight_status.go:6-19 | no two statuses share their flags |
| FlightStatus.DescriptionLengths | internal/model/flight_status.go:23-35 | each description has its stated length |
| FlightStatus.DescriptionsDistinct | internal/model/flight_status.go:24-37 | the six descriptions are pairwise distinct and differ from "invalid" |
| AircraftRecord.Emergency | internal/model/aircraft.go:94-97 | only a record whose last DF is 4, 5 or 21 can be an emergency |
| AircraftRecord.Alert | internal/model/aircraft.go:100-103 | only such a record can be in alert |
| AircraftRecord.Ground | internal/model/aircraft.go:106-109 | only such a record can be on the ground |
| AircraftRecord.Indent | internal/model/aircraft.go:112-115 | only such a record can squawk ident |
| AircraftRecord.PredicatesMatchFlags | internal/model/aircraft.go:100-115 | given that DF, Alert, Ground and Indent are the alert, on-ground and SPI flags of the flight status; none holds for a status of 6 or more |
| AircraftRecord.PredicateCombinations | internal/model/aircraft.go:100-115 | Ground and Indent never both hold; status 3 is Alert and Ground, status 4 is Alert and Indent |
| AircraftRecord.EmergencySquawks | internal/model/aircraft.go:94-97 | Emergency iff the DF condition holds and the squawk is 7500, 7600 or 7700 |
| Icao.ParseICAOAddr | internal/model/icao.go:21-25 | the value and error are those of the base-16 parse; without an error the text is non-empty hex |
| Icao.String | internal/model/icao.go:46-48 | uppercase hex with no leading zero, which parses back to the address |
| Icao.MarshalJSON | internal/model/icao.go:28-30 | the hex text between two double quotes |
| Icao.UnmarshalResult | internal/model/icao.go:33-43 | an unquoted input is the wrong-ICAO error with the address unchanged; a quoted one stores the parse of its inside, even on a parse error |
| Icao.UnmarshalMarshal | internal/model/icao.go:28-43 | unmarshalling a marshalled address succeeds and restores it |
| Icao.AddrCell.UnmarshalJSON | internal/model/icao.go:33-43 | the receiver and the error become the unmarshal outcome |
| Icao.AddrCell.Set | internal/model/icao.go:51-57 | the receiver takes the parsed value even when the parse reports an error |
| Unique.Compare | internal/model/unique-list.go:45-47 | the string comparison is -1, 0 or 1, and 0 exactly for equal strings |
| Unique.CompareAntisymmetric | internal/model/unique-list.go:45-47 | swapping the operands negates the comparison |
| Unique.Added | internal/model/unique-list.go:20-32 | an empty or already present element leaves the list unchanged; any other is appended at the end |
| Unique.AddedKeepsInvariant | internal/model/unique-list.go:20-32 | adding keeps the list free of duplicates and of empty elements |
| Unique.AddedFixture | internal/model/unique-list_test.go:31-42 | adding bar, foo, foo and "" gives [bar, foo] |
| Unique.UniqueList.constructor | internal/model/unique-list.go:20-32 | a new list is empty and satisfies the invariant |
| Unique.UniqueList.Add | internal/model/unique-list.go:20-32 | the list becomes the added list, and the invariant is kept |
| Unique.UniqueList.Len | internal/model/unique-list.go:35-37 | the length is the number of stored elements |
| Unique.UniqueList.Swap | internal/model/unique-list.go:40-42 | exactly positions `i` and `j` are exchanged; the contents as a multiset and the invariant are kept |
| Unique.UniqueList.Less | internal/model/unique-list.go:45-47 | `Less(i, j)` iff the canonical text of `i` is greater than that of `j`, so sorting is descending |
| Unique.CompareTransitive | internal/model/unique-list.go:45-47 | the comparison is transitive, so it orders strings |
| Unique.UniqueList.LessStrictOrder | internal/model/unique-list.go:45-47 | `Less` is a strict order on the list's positions (irreflexive, asymmetric, transitive), as `sort.Sort` needs |
| Unique.UniqueList.First | internal/model/unique-list.go:50-52 | a non-empty list's first element is a stored, non-empty element |
| Unique.SwapKeepsInvariant | internal/model/unique-list.go:40-42 | an exchange preserves the multiset and the absence of duplicates |
| Unique.SortFixture | internal/model/unique-list_test.go:44-56 | "foo" compares above "bar", so it sorts first |
| Nmea.MMSI | internal/serialize/nmea/serializer.go:111-122 | the last three digits are the address mod 1000, the next digit is 1 for aircraft, 5 for helicopter, else 0, the three above are the MID mod 1000; the value lies in [10000000, 19995999] |
| Nmea.MmsiDigits | internal/serialize/nmea/serializer.go:111-122 | the digit groups of the sum can be read back |
| Nmea.FieldFromAircraft | internal/serialize/nmea/serializer.go:80-103 | the MMSI and position are copied; ground speed wins over air speed, each scaled by 1/10, else 0; the track gives course and truncated heading, else both 0 |
| Nmea.BoxValues | internal/serialize/nmea/serializer.go:60-65 | a slice of aircraft becomes the same aircraft, in order, one nesting level deep |
| Nmea.BoxPointers | internal/serialize/nmea/serializer.go:66-71 | a slice of pointers becomes the same pointers, in order, with no further nesting |
| Nmea.DepthAtLeast | internal/serialize/nmea/serializer.go:38-78 | the nesting depth bounds every element's depth |
| Nmea.Serialize | internal/serialize/nmea/serializer.go:38-78 | the loop returns the specification: parts collected in order, the first failure aborting, joined with newlines |
| Nmea.PartsSnoc | internal/serialize/nmea/serializer.go:42-74 | one more element appends its parts, or fails |
| Nmea.PartsAppend | internal/serialize/nmea/serializer.go:42-74 | the parts of a concatenation are the concatenated parts |
| Nmea.FailureStops | internal/serialize/nmea/serializer.go:54-57 | once a prefix fails, the whole serialization fails |
| Nmea.SkippedValues | internal/serialize/nmea/serializer.go:42-74 | a nil pointer, an aircraft without position and a value of any other type emit nothing |
| Nmea.PositionedPointer | internal/serialize/nmea/serializer.go:51-59 | a positioned aircraft emits its sentence followed by the newline part, then the join newline |
| NetProtocol.ParseData | internal/transport/net/protocol.go:87-102 | "" gives ("nmea", "0.0.0.0:30003"); text without '@' gives ("nmea", text); otherwise the format is the text before the first '@' and the address all after it |
| NetProtocol.ParseDataFormatAddr | internal/transport/net/protocol.go:87-102 | parsing `format@addr` returns format and address, even when the address holds '@' |
| NetProtocol.SetOutcome | internal/transport/net/protocol.go:53-75 | no '>' gives direction "dial"; exactly one gives the unchecked text before it; two or more give an error |
| NetProtocol.SetOutcomeRoundTrip | internal/transport/net/protocol.go:53-102 | `direction>format@addr` sets exactly those three fields |
| NetProtocol.SetOutcomeDirection | internal/transport/net/protocol.go:64-71 | the direction is whatever precedes the single '>' |
| NetProtocol.SetOutcomeDial | internal/transport/net/protocol.go:56-63 | without '>' the direction is "dial" |
| NetProtocol.ProtocolConfig.constructor | internal/transport/net/protocol.go:35-39 | a new configuration has only its protocol type set |
| NetProtocol.ProtocolConfig.String | internal/transport/net/protocol.go:42-50 | the text is `direction/type:format@addr` |
| NetProtocol.ProtocolConfig.Set | internal/transport/net/protocol.go:53-75 | on error the fields are unchanged; otherwise direction, format and address are the outcome; the type is never touched |
| Config.HTTPSetOutcome | internal/config/http.go:22-41 | with a '/', the address is the text before the first '/' and the path the rest with its '/'; without one, the text and "/api"; the address never holds '/' and the path starts with '/' |
| Config.HTTPConfig.constructor | internal/config/http.go:22-41 | a new configuration is empty |
| Config.HTTPConfig.String | internal/config/http.go:17-19 | the text is the address followed by the path |
| Config.HTTPConfig.Set | internal/config/http.go:22-41 | never an error; the fields become the outcome |
| Config.HTTPSetString | internal/config/http.go:17-41 | setting then printing gives the text back when it holds '/', otherwise the text plus "/api" |
| Config.HTTPSetRoundTrip | internal/config/http.go:17-41 | an address without '/' and a path starting with '/' are restored |
| Config.VesselString | internal/config/vessel.go:13-18 | 0 is "aircraft", 1 "helicopter", anything else "" |
| Config.ParseVessel | internal/config/vessel.go:21-30 | exactly "aircraft" and "helicopter" are accepted, and they print back as themselves |
| Config.ParseVesselString | internal/config/vessel.go:13-33 | parsing the text of a valid vessel gives it back |
| Config.Vessel.constructor | internal/config/vessel.go:13-33 | a new vessel holds the given value |
| Config.Vessel.Set | internal/config/vessel.go:21-33 | an unknown name is an error and leaves the value unchanged; a known one stores its type |
| Aggregation.OfKind | internal/processor/decoder/aircraft.go:41-67 | a bucket never has more frames than the history |
| Aggregation.LastPosition | internal/processor/decoder/aircraft.go:48-61 | the last position kind is none, surface or airborne |
| Aggregation.BucketsAreFilters | internal/processor/decoder/aircraft.go:41-67 | each bucket is the in-order filter of the history by payload kind |
| Aggregation.LastPositionIsAirborne | internal/processor/decoder/aircraft.go:48-61 | the flag holds iff the last position message is airborne, and stays false when there is none |
| Aggregation.SkippedMessage | internal/processor/decoder/aircraft.go:41-47 | a message that does not decode, or is of another kind, leaves the buckets as they are |
| Aggregation.SearchBelow | internal/processor/decoder/aircraft.go:173-181 | the search finds the highest index below `k` of the asked parity, or reports none has it |
| Aggregation.Partner | internal/processor/decoder/aircraft.go:173-181 | the partner is the highest index of the asked parity before the last element, or none exists |
| Aggregation.FindFrame | internal/processor/decoder/aircraft.go:173-181 | the backward scan returns the partner |
| Aggregation.FramesOf | internal/processor/decoder/aircraft.go:167-171 | the last element and its opposite-parity partner |
| Aggregation.ProcessExtendedSquitter | internal/processor/decoder/aircraft.go:96-165 | the updated record is the specification of the extended-squitter update |
| Aggregation.UpdatePosition | internal/processor/decoder/aircraft.go:103-135 | the altitude and position update of the selected bucket |
| Aggregation.UpdateVelocity | internal/processor/decoder/aircraft.go:137-158 | the velocity update |
| Aggregation.IdentificationFrame | internal/processor/decoder/aircraft.go:97-101 | the identification step changes only callsign and category |
| Aggregation.PositionFrame | internal/processor/decoder/aircraft.go:103-135 | the position step changes only altitude and position |
| Aggregation.VelocityFrame | internal/processor/decoder/aircraft.go:137-158 | the velocity step changes only the seven velocity fields |
| Aggregation.ExtendedStepped | internal/processor/decoder/aircraft.go:160-164 | the update ends by blanking the operation text when a status message came and stamping the time |
| Aggregation.ExtendedIdentification | internal/processor/decoder/aircraft.go:97-101 | callsign and category come from the last identification, else are kept |
| Aggregation.ExtendedAltitude | internal/processor/decoder/aircraft.go:103-122 | the altitude comes from the last element of the bucket the flag selects, else is kept |
| Aggregation.ExtendedPositionFields | internal/processor/decoder/aircraft.go:103-135 | altitude and position are the bucket rule applied to the record |
| Aggregation.ExtendedPosition | internal/processor/decoder/aircraft.go:107-135 | the position changes only when the selected bucket has two or more frames, a partner exists and decoding succeeds |
| Aggregation.FromBucketPosition | internal/processor/decoder/aircraft.go:107-135 | the same rule for any bucket |
| Aggregation.ExtendedVelocity | internal/processor/decoder/aircraft.go:137-158 | velocity fields change only when the speed is at least 0, the track only when the heading is above 0, and ground speed or air speed by `IsGroundSpeed`, never both |
| Aggregation.ExtendedKeeps | internal/processor/decoder/aircraft.go:96-165 | registry, address and status fields are untouched and the time is stamped |
| Aggregation.ProcessShortMessage | internal/processor/decoder/aircraft.go:74-94 | a short message only stamps the time |
| Aggregation.BuildAircraft | internal/processor/decoder/aircraft.go:20-72 | the loop and the final update give the built record of the specification |
| Aggregation.ShortMessagesOfPrefix | internal/processor/decoder/aircraft.go:41-67 | a non-short message does not change whether a short one was seen |
| Aggregation.BuiltFromRegistry | internal/processor/decoder/aircraft.go:21-37 | registry fields are copied, identity is 0, DF, type and subtype come from the last message, the time is stamped |
| Decoder.TransportersOf | internal/processor/decoder/decoder.go:67-71 | no more transporters than configurators |
| Decoder.ConfiguredTransporters | internal/processor/decoder/decoder.go:34-71 | configurators apply in order and each transporter option appends |
| Decoder.LaterLifetimeWins | internal/processor/decoder/decoder.go:60-64 | the last lifetime option decides |
| Decoder.LaterDatabaseWins | internal/processor/decoder/decoder.go:53-57 | the last database option decides |
| Decoder.CrcGateAsWrittenNeverFails | internal/processor/decoder/decoder.go:84-88 | the gate as written never rejects a qualified frame |
| Decoder.CrcGate | internal/processor/decoder/decoder.go:84-88 | the intended gate rejects iff the frame is an extended squitter whose checksum differs from its parity field |
| Decoder.CrcGateRejectsWrongParity | internal/processor/decoder/decoder.go:84-88 | a DF17/18 frame with bad parity qualifies and is rejected |
| Decoder.Deliveries | internal/processor/decoder/decoder.go:111-115 | one delivery per transporter, in configured order |
| Decoder.ErrorsChangeNothing | internal/processor/decoder/decoder.go:79-97 | an error leaves store and deliveries unchanged |
| Decoder.ErrorOrder | internal/processor/decoder/decoder.go:79-97 | classification errors come first, then the checksum, then the missing registry entry |
| Decoder.SuccessAppendsAndDelivers | internal/processor/decoder/decoder.go:92-117 | success appends exactly the message under its address, leaves other addresses, and delivers the aircraft built from the whole sequence to every transporter |
| Decoder.StepKeepsStore | internal/processor/decoder/decoder.go:92-109 | the store keeps only non-empty, well-formed sequences |
| Decoder.AppendKeepsStore | internal/processor/decoder/decoder.go:107 | adding one classified message under an address keeps every history non-empty and well formed |
| Decoder.Process.constructor | internal/processor/decoder/decoder.go:34-50 | a new process has the configured settings, an empty store and no deliveries |
| Decoder.Process.Process | internal/processor/decoder/decoder.go:74-118 | the new state and the error are the step function's; settings do not change |
| Decoder.Process.Deliver | internal/processor/decoder/decoder.go:111-115 | the deliveries grow by one per transporter; nothing else changes |
| Rtlsdr.Swap | internal/input/implementations/rtlsdr.c:33-35 | exchanging neighbours keeps the multiset and changes only those two positions |
| Rtlsdr.InversionsSwap | internal/input/implementations/rtlsdr.c:25-39 | swapping an out-of-order pair removes exactly one inversion, the loop's termination measure |
| Rtlsdr.SmallerSwap | internal/input/implementations/rtlsdr.c:25-39 | swapping inside a suffix keeps the count of smaller elements |
| Rtlsdr.SwapAdjacent | internal/input/implementations/rtlsdr.c:33-35 | the array becomes the swapped sequence |
| Rtlsdr.SortIcaoAddr | internal/input/implementations/rtlsdr.c:21-40 | the array ends sorted ascending, a permutation of the input, unchanged when its length is at most 1 |
| Rtlsdr.SearchIcao | internal/input/implementations/rtlsdr.c:45-59 | the result is 0 or 1, and 1 only when the address occurs |
| Rtlsdr.SearchIcaoComplete | internal/input/implementations/rtlsdr.c:43-59 | on a sorted non-empty list the result is 1 iff the address occurs |
| Rtlsdr.Fold | internal/input/implementations/rtlsdr.c:100-112 | the folded sample lies in 0..128, its distance from 127 |
| Rtlsdr.MagnitudeIndex | internal/input/implementations/rtlsdr.c:100-112 | `i*129+q` indexes inside the 129×129 table |
| Rtlsdr.MagnitudeIndexParts | internal/input/implementations/rtlsdr.c:100-112 | the index splits back into the folded I and Q |
| Rtlsdr.MagnitudeIndexInjective | internal/input/implementations/rtlsdr.c:100-112 | two samples share an index iff their folded I and Q agree |
| Rtlsdr.ComputeMagnitudes | internal/input/implementations/rtlsdr.c:78-118 | a new buffer of half the length, each entry the table value at the pair's index |
| Rtlsdr.MeanHigh | internal/input/implementations/rtlsdr.c:204-220 | the mean of the four high samples fits 16 bits, and is at least 1 once the pulse comparisons pass, so the divisions are safe |
| Rtlsdr.QuotientAtMostTwo | internal/input/implementations/rtlsdr.c:204-220 | a quotient is at most 2 iff the sample is below three times the mean |
| Rtlsdr.PreambleBalanced | internal/input/implementations/rtlsdr.c:152-220 | the preamble holds iff the pulse shape holds and each high sample is below three times the mean |
| Rtlsdr.FrameLength | internal/input/implementations/rtlsdr.c:271-287 | the length is 56 or 112, and 112 iff the first bit decodes as 1 |
| Rtlsdr.DecodedBits | internal/input/implementations/rtlsdr.c:277-290 | bit `k` is set iff `k` is below the length and `mag[2k] > mag[2k+1]` |
| Rtlsdr.DecodeOneBit | internal/input/implementations/rtlsdr.c:277-290 | one step ORs its bit into byte `n/8` and touches no other byte |
| Rtlsdr.PackNothing | internal/input/implementations/rtlsdr.c:269 | before any bit, the message is all zero |
| Rtlsdr.DecodeMessage | internal/input/implementations/rtlsdr.c:268-293 | the returned length is the frame length, and the message is the packing of the decoded bits |
| Rtlsdr.SetMessageBit | internal/input/implementations/rtlsdr.c:278-290 | after one pass of the loop body the message holds the first `index + 1` decoded bits |
| Rtlsdr.PackBits | internal/input/implementations/rtlsdr.c:277-290 | reading the packed bytes MSB first gives the bits back |
| Rtlsdr.DecodedMessageBits | internal/input/implementations/rtlsdr.c:277-290 | message bit `k`, MSB first, is `mag[2k] > mag[2k+1]` below the length and 0 after |
| Rtlsdr.LaterBytesZero | internal/input/implementations/rtlsdr.c:269-290 | every byte from the frame's end onward stays 0 |

## Left out

- constant.h is not part of this model. The 56- and 112-bit frame lengths are
  the Mode S ones, and two samples per bit follows from the paired reads of
  `decodeMessage`.
- The scanning loop of `rtlsdrProcessRaw` is not modelled, nor its carry-over of
  leftover magnitudes. It depends on those constants and on the device callback.
  Only the preamble test and its `meanHigh` division are modelled.
- Rtlsdr.ComputeMagnitudes: does not model the prepended magnitudes carried over
  from the previous buffer, because they come from the same device plumbing.
- `initTables` is left out because it is floating point (square roots, rounding).
  The magnitude table is an input array.
- The device and callback plumbing is left out because it is hardware I/O:
  `rtlsdr.go`, `rtl28xxx.go`, `rtlsdrReadAsync`, `goRtlsrdData`, `context.c`.
- The file defining `ExtendedSquitter.Decode`, `TypeCode`, `SubTypeCode`, the
  surface-position accessors, CPR `DecodePosition` and the short-message
  `AircraftAddress` is not part of this model.
  - The type code and subtype code are read as bits 32..36 and 37..39 of the frame.
  - The rest become parameters: the `Env` record in `Aggregation`, and
    `addressOf` in `Decoder`.
- The time-expiring `ChainedStorage` is modelled as a plain map from address to
  sequence. The lifetime is stored but expiry is not modelled: it is a background
  goroutine.
- `time.Now` is the `now` parameter. Logging is not modelled.
- A transporter's error is only logged by the source. It is modelled as a
  delivery trace, so it cannot make `Process` fail.
- Decoder.Process.Process: requires a non-empty frame, because the source indexes
  byte 0 unconditionally.
- Decoder.Step: runs the corrected checksum gate `CrcGate`, which checks extended
  squitters (DF 17/18), not the as-written gate of decoder.go:84-88, which never
  rejects (second row under "## Findings"). A DF 17/18 frame with a wrong parity
  field is rejected here with the wrong-CRC error. The program as written looks it
  up in the registry, stores it and delivers it. The as-written gate is
  `CrcGateAsWritten`, and `CrcGateAsWrittenNeverFails` is its property.
- Decoder.Process.Process: equals `Step`, so it runs the corrected checksum gate
  and rejects the bad-parity DF 17/18 frames that the program accepts.
- Decoder.ErrorOrder: the wrong-CRC error it places between classification and the
  registry lookup comes from the corrected gate. The program as written never
  returns it.
- Decoder.SuccessAppendsAndDelivers: requires the corrected gate to pass. It says
  nothing about bad-parity DF 17/18 frames, which the program stores and delivers.
  The record it delivers carries the corrected airborne altitude (next lines).
- Aggregation.UpdatePosition: the airborne altitude it writes is
  `AirbornePosition.Altitude`, the corrected decoding of the first row under
  "## Findings", through `AirborneAltitude`. The program calls the as-written
  `Altitude()` (`AirbornePosition.AltitudeAsWritten`). That returns -1 for every
  barometric type code 9..18 where the model stores 25·N-1000 feet. For the GNSS
  type codes 20..22 it scales the 12-bit field read one bit late, where the model
  scales `EncodedAltitude`.
- Aggregation.ExtendedAltitude: states the corrected airborne altitude, not the
  as-written one, for the reason given under `UpdatePosition`.
- Aggregation.ExtendedPositionFields: applies the bucket rule with the corrected
  airborne altitude, for the reason given under `UpdatePosition`.
- Aggregation.ProcessExtendedSquitter: its specification takes the airborne altitude
  from the corrected decoding, for the reason given under `UpdatePosition`.
- Aggregation.BuildAircraft: the record it builds carries the corrected airborne
  altitude, for the reason given under `UpdatePosition`.
- AircraftRecord.Emergency: `SquawkHijacker`, `SquawkRadioFailure` and
  `SquawkMayday` are defined in a file that is not part of this model. They are
  taken as the ICAO emergency codes 7500, 7600 and 7700.
- Aggregation.BuildAircraft: works on record values rather than shared pointers.
  `buildAircraft` never sets `Addr`, `LastFlightStatus` or `Identity`, and the
  model keeps that.
- `OperationStatus` is a stub whose text is "": the current operation becomes ""
  when a status message is present.
- Floating point:
  - Go's `float64` becomes Dafny `real`.
  - The square root and arctangent of the ground-speed polar conversion are the
    `polar` parameter.
  - `uint16(track)` is modelled as `Floor`.
  - The NMEA payload's `Fields`/`String` rendering is the `render` parameter.
- ModeS.IcaoAddrChecksum: states the bound and the non-address-parity case. The
  recovery of the address is the separate lemma `IcaoAddrRecovers`. The test
  fixture frames (and the checksum fixtures 8D40621D58C382D690C8AC2863A7 and
  8D40621D59C382D690C8AC2863A7) are not evaluated, because computing a full
  112-bit division is beyond what the verifier unfolds.
- Identification.CategoryNamesReached: every name is reached, but the pairwise
  distinctness of the 18 names is not proved.
- The mutex-guarded global table cache of `MakeCRCTable` is left out because it is
  concurrency. The table is built once per call.
- `Serializer.New`, `MimeType` and `String` are constructors and constant strings
  with nothing to prove.
- `Aircraft.String`, the screen transport and printing are output formatting.
- `cmd/`, `application/`, `config.go`, `aircraftdb`, and the file and reader inputs
  are CLI, persistence and I/O.
- The `Type()` methods of the flag values are constant strings.
- `ProtocolConfig.IsValid` is modelled as a predicate (address non-empty) with no
  further property.

## Findings

| source | as written | input that shows it | evidently intended | confidence | as-written member | corrected member |
|---|---|---|---|---|---|---|
| internal/model/adsb_airborne_position.go:28-58 | the barometric branch compares the masked Q bit (0 or 16) with 1, reads the 12-bit field one bit late, and so returns -1 for every barometric altitude | frame 8D40621D58C382D690C8AC2863A7 (type code 11, encoded altitude 0xC38) gives -1 | 25·N-1000 feet over the encoded field when Q is set, i.e. 38000 feet here | high, not executed | AirbornePosition.AltitudeAsWrittenExample | AirbornePosition.AltitudeExample |
| internal/processor/decoder/decoder.go:84-88 | the checksum is consulted only for long messages (DF 16/20/21/24), which `CheckSum` never rejects, so `Process` never returns the wrong-CRC error | frame 8D40621D59C382D690C8AC2863A7 (DF 17 with a corrupted byte) passes the gate | check the checksum of extended squitters (the guard's variable is named for them) | medium, not executed | Decoder.CrcGateAsWrittenNeverFails | Decoder.CrcGateRejectsWrongParity |
