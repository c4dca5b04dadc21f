# lls-exporter: the sensor protocol and calibration core in Dafny

This project models the core of `lls/exporter.go` from the lls-exporter
repository. The exporter polls LLS fuel-level sensors over an RS-485 serial
line and publishes their readings as Prometheus gauges. The modelled core is:

- the table-free CRC-8 `crc8one` / `crc8`, which turns out to be the
  Dallas/Maxim 1-Wire CRC-8;
- the 4-byte request the writer sends to each sensor;
- the reader's frame synchronizer over its 9-byte buffer, and the decoding of
  a 9-byte response (address, temperature, little-endian raw level);
- the configuration pass of `Serve`:
  - each sensor's calibration points are remapped onto 1..4094 with Go's
    truncating integer division;
  - the points are sorted by raw value with the unstable `sort.Slice`;
  - the table is checked for the four configuration errors, in the source's
    order;
  - each sensor is indexed by address, and a later sensor replaces an earlier
    one;
- the observation policy of the reader:
  - a raw level above 4095 reads as 0;
  - an unknown address changes nothing;
  - raw 0 raises line damage with 0 liters;
  - raw 4095 gives 0 liters and leaves the water flag at 0;
  - every other raw level is interpolated piecewise-linearly in the table.

Files:

- `wrappers.dfy`: `Option` and `Result`.
- `checksum.dfy`: module `Checksum`, the CRC-8.
- `calibration.dfy`: module `Calibration`, remap, arrangement, validation and
  interpolation.
- `frames.dfy`: module `Frames`, requests, responses, the synchronizer and
  decoding.
- `exporter.dfy`: module `Exporter`, the sensor registry, response handling
  and the polling round.

Modelling conventions:

- Bytes are `bv8`.
- Go's `float64` is `real`.
- Go's `byte(int)` is `Frames.LowByte` (the value modulo 256).
- Go's `/` on `int` is `Calibration.TruncDiv`, which truncates toward zero.
- `sort.Slice` is not stable, so it is not a function of its input. Each
  operation that sorts takes the order the sort produced as a parameter
  (`arranged`), and the parameter is constrained to be sorted by raw value and
  a permutation of the remapped points (`Calibration.IsArrangement`).
- The reads of the serial port are a parameter too. They are a sequence of
  non-empty chunks, each at most the room left in the buffer.

Behaviours of `lls/exporter.go` worth knowing, each stated by a member of
the model:

- A wrong start byte, a wrong command code or a wrong CRC makes the reader
  break out of its inner loop (lines 225-227, 233-235, 241-243). The next
  read starts again at the front of the buffer (line 216), so the whole
  buffer is thrown away, not just its first byte (`Frames.Step`). As a
  consequence, a stray start byte in front of a response can cost that
  response (`Frames.StrayStartByteHidesFrame`).
- A decoded raw level above 4095 is not treated as a protocol error. Lines
  255-257 replace it with 0, and the response is still used, so it reports
  line damage (`Frames.Decode`, `Exporter.HandleFrame`).
- Raw level 4095 sets the water flag to 0, the value it already had
  (lines 266-267, `Exporter.HandleFrame`).
- The sort at lines 166-168 compares raw values only. Two points that remap
  to the same raw value therefore make the check at lines 170-174 depend on
  the order the unstable sort leaves them in
  (`Calibration.TiedRawsOrderMatters`).
- The request carries `byte(s.address)` (line 298), but the response is
  looked up under the byte it carries (lines 245 and 259). A sensor address
  outside 0..255 is polled as the address modulo 256, and its gauges are
  never set (`Exporter.WideAddressNeverMatches`).
- A sensor with fewer than two points returns its error at line 156, before
  the remap at line 164. Only the sensors the configuration loop reaches
  divide by `MaxRaw - MinRaw` (`Exporter.Configure`,
  `Exporter.FailureStopsBeforeLaterSensors`).

## Model

| member | source | states |
|---|---|---|
| Checksum.Crc8One | lls/exporter.go:69-97 | one byte step of the CRC is zero exactly when the data byte equals the running checksum |
| Checksum.Table | lls/exporter.go:70-96 | the eight conditional XORs of `crc8one`, one per bit of `data ^ crc`; `Checksum.TableIsRegister` states that it equals eight steps of the Dallas/Maxim shift register |
| Checksum.TableZero | lls/exporter.go:70-96 | the accumulated constants cancel out only when no bit of `data ^ crc` is set |
| Checksum.TableIsRegister | lls/exporter.go:70-96 | the eight conditional XORs equal eight shifts of the bit-serial Dallas/Maxim register (reflected polynomial 0x8C) |
| Checksum.Crc8OneIsMaxim | lls/exporter.go:69-97 | `crc8one(data, crc)` is one byte update of the Dallas/Maxim 1-Wire CRC-8 |
| Checksum.TableLinear | lls/exporter.go:70-96 | the step is XOR-linear in `data ^ crc` |
| Checksum.TableInjective | lls/exporter.go:70-96 | different values of `data ^ crc` give different steps (the table is a bijection on bytes) |
| Checksum.Crc8OneDependsOnXor | lls/exporter.go:69-70 | the step depends on its two inputs only through `data ^ crc` |
| Checksum.Crc8OneInjective | lls/exporter.go:69-97 | two steps agree exactly when their `data ^ crc` agree |
| Checksum.Crc8 | lls/exporter.go:99-105 | `crc8` as a left fold of the byte step from 0; `Checksum.ComputeCrc8` states that the Go loop computes it, and `Checksum.Crc8CheckByte` that a trailing byte checks to 0 exactly when it is the checksum of what precedes it |
| Checksum.ComputeCrc8 | lls/exporter.go:99-105 | the loop of `crc8` computes the left fold of the byte step from 0 |
| Checksum.Crc8Append | lls/exporter.go:99-105 | appending a byte advances the checksum by one step |
| Checksum.Crc8SelfCheck | lls/exporter.go:99-105 | a message followed by its own checksum has checksum 0 |
| Checksum.Crc8CheckByte | lls/exporter.go:99-105 | a trailing byte makes the checksum 0 exactly when it is the checksum of what precedes it |
| Checksum.Crc8AppendDiffers | lls/exporter.go:99-105 | equal checksums extended by different bytes, or different ones by the same byte, stay different |
| Checksum.Crc8SuffixKeepsDifference | lls/exporter.go:99-105 | a common continuation never makes two different checksums equal |
| Checksum.Crc8DetectsSingleByteError | lls/exporter.go:99-105 | two equally long messages differing in exactly one byte have different checksums |
| Calibration.TruncDiv | lls/exporter.go:164 | Go's integer `/`: the remainder is smaller than the divisor and carries the dividend's sign, and the quotient's magnitude is the quotient of the magnitudes |
| Calibration.Remap | lls/exporter.go:163-164 | `MinRaw` remaps to 1, `MaxRaw` to 4094, and anything between them into 1..4094 |
| Calibration.RemapAtMax | lls/exporter.go:164 | the upper bound lands exactly on 4093 before the `+ 1`, for bounds in either order |
| Calibration.RemapBetween | lls/exporter.go:164 | a raw value between the bounds lands in 0..4093 before the `+ 1` |
| Calibration.RemapLevels | lls/exporter.go:159-165 | the remapped points are as many as the configured ones and keep their liters; a point at `MinRaw` lands on 1, one at `MaxRaw` on 4094, and one between the bounds within 1..4094 |
| Calibration.SortByRaw | lls/exporter.go:166-168 | some order sorted by raw value and holding exactly the given points always exists |
| Calibration.StrictArrangementUnique | lls/exporter.go:166-168 | with distinct raw values, every possible result of the sort is the same sequence |
| Calibration.TiedRawsOrderMatters | lls/exporter.go:164-174 | configured raws 0 and 1 on the scale 0..10000 truncate onto the same raw 1. With that tie, one possible sort result passes the checks and another fails the liters check |
| Calibration.TiedRawsRemap | lls/exporter.go:164 | with raw bounds 0 and 10000, the points at 0, 1 and 10000 remap onto 1, 1 and 4094 |
| Calibration.TableViolation | lls/exporter.go:155-181 | the checks find no error exactly when the table has at least two points, increasing liters, first raw 1 and last raw 4094 |
| Calibration.BuildTable | lls/exporter.go:155-181 | table construction succeeds exactly when all checks pass; it then returns the sorted points, which form a valid table; otherwise it returns the first failing check's error |
| Calibration.LastAtOrBelow | lls/exporter.go:269-276 | the index found is at or below the raw level, and every later point is above it |
| Calibration.LastAtOrBelowUnique | lls/exporter.go:269-276 | in a sorted table, the point the loop stops behind is determined uniquely |
| Calibration.Lerp | lls/exporter.go:274 | the interpolation line passes through both of its points: it gives the lower point's liters at its raw value and the upper point's at its own |
| Calibration.LerpBounds | lls/exporter.go:274 | on a segment, the interpolated liters stay from the lower point's liters up to, not including, the upper's, and are exact at the lower point |
| Calibration.LerpIncreasing | lls/exporter.go:274 | the interpolation line rises strictly with the raw level |
| Calibration.LevelAt | lls/exporter.go:269-277 | for a valid table, the liters of any raw level in 1..4094 lie between the first and the last point's liters |
| Calibration.LevelAtWithinSegment | lls/exporter.go:272-275 | between two neighbouring points, the liters come from the line through them and stay within their liters |
| Calibration.LevelAtPoint | lls/exporter.go:270-271 | at a calibration point (the last with its raw value), the liters are exactly that point's |
| Calibration.LevelAtPoints | lls/exporter.go:270-271 | with distinct raw values, every calibration point is reproduced exactly |
| Calibration.LevelAtIncreasing | lls/exporter.go:269-277 | a higher raw level always reads as strictly more liters |
| Calibration.Interpolate | lls/exporter.go:269-277 | the reader's loop computes the piecewise-linear level; its predecessor index is never -1 and its divisor is positive, both checked by the verifier |
| Frames.LowByte | lls/exporter.go:298 | Go's `byte(address)` has the value `address` modulo 256 |
| Frames.RequestFrame | lls/exporter.go:298-299 | a request is 4 bytes: 0x31, the address modulo 256, 0x06, then a CRC that makes the whole frame check to 0 |
| Frames.RequestFrameDetermined | lls/exporter.go:298-299 | two addresses get the same request exactly when they agree modulo 256 |
| Frames.BuildRequest | lls/exporter.go:298-299 | the writer's zero-then-patch construction yields that request |
| Frames.IsResponseFrame | lls/exporter.go:225-243 | the reader's acceptance test: 9 bytes, start byte 0x3E, command 0x06, and byte 8 equal to the checksum of bytes 0-7; `Frames.ResponseFrameChecks` states it as a total checksum of 0 |
| Frames.ResponseFrameChecks | lls/exporter.go:225-243 | a 9-byte buffer is accepted exactly when it has the start byte, the command code and a total checksum of 0 |
| Frames.LittleEndianOr | lls/exporter.go:247 | the OR of the low byte with the shifted high byte is their little-endian sum |
| Frames.WireLevel | lls/exporter.go:247 | the assembled raw level is `lo + 256 * hi`, within 0..65535 |
| Frames.Decode | lls/exporter.go:245-257 | the address and temperature are bytes 1 and 3, and the raw level is bytes 4-5 little-endian, read as 0 above 4095 |
| Frames.EncodeResponse | lls/exporter.go:225-243 | a response a sensor builds from its fields is always accepted |
| Frames.DecodeEncode | lls/exporter.go:245-257 | decoding an encoded response gives back its fields, except that levels above 4095 read as 0 |
| Frames.EncodeDecode | lls/exporter.go:241-247 | every accepted response is the encoding of its own fields |
| Frames.Step | lls/exporter.go:218-243 | after a read, a response is reported exactly when the buffer holds a complete valid response. The buffer is kept while it can still begin a response and is emptied otherwise, and it always stays under 9 bytes |
| Frames.Run | lls/exporter.go:213-243 | over any reads, every accepted frame is a valid response, the buffer stays a possible response prefix, and each frame consumed 9 input bytes |
| Frames.CompletesFrame | lls/exporter.go:215-243 | from any prefix of a response, any split of its remainder into reads delivers exactly that response and leaves the buffer empty |
| Frames.AcceptsAnyChunking | lls/exporter.go:213-243 | from an empty buffer, every split of a response into reads delivers it |
| Frames.ForeignByteThenFrame | lls/exporter.go:225-226 | a byte other than the start byte, read alone, is dropped, and the response after it is still delivered |
| Frames.StrayStartByteHidesFrame | lls/exporter.go:225-236 | a stray start byte before a response whose address is not 0x06 makes the reader lose that response |
| Exporter.ConfigViolation | lls/exporter.go:155-181 | a sensor's configuration is rejected exactly when its sorted table is not a valid table |
| Exporter.AddressIndex | lls/exporter.go:183-184 | the address map `sensorsMap` after the configuration loop; `Exporter.AddressIndexLastWins` states its keys and that each maps to the last sensor with that address |
| Exporter.AddressIndexLastWins | lls/exporter.go:184 | the address map holds exactly the configured addresses, each mapped to the last sensor configured with it |
| Exporter.AddressIndexValid | lls/exporter.go:183-184 | the address map only returns sensors with valid tables |
| Exporter.SetUpSensor | lls/exporter.go:155-184 | one sensor is set up exactly when its configuration passes, with its sorted points as table; otherwise its error is reported |
| Exporter.Configure | lls/exporter.go:118-185 | configuration succeeds exactly when every sensor passes. On failure, the error is the first failing sensor's. Only sensors the loop reaches need distinct raw bounds. On success, the sensors keep configuration order, and the address map is the last-wins index and only returns valid tables |
| Exporter.FirstViolationUnique | lls/exporter.go:155-181 | at most one sensor is the first to fail, so the reported error is determined by the configuration |
| Exporter.FailureStopsBeforeLaterSensors | lls/exporter.go:155-164 | a sensor with equal raw bounds placed after a sensor with one point is never remapped: the configuration is admissible and fails with the first sensor's error |
| Exporter.HandleFrame | lls/exporter.go:255-285 | a response yields an observation exactly when its address is registered. Raw 0 sets line damage and 0 liters; 4095 gives 0 liters; 1..4094 gives the interpolated level. Water is always 0 |
| Exporter.PollRound | lls/exporter.go:296-299 | one round sends each sensor's request, in configuration order |
| Exporter.WideAddressNeverMatches | lls/exporter.go:184 | a configured address outside 0..255 never equals the address in the reply to its own request |
| Exporter.ExampleConfiguration | lls/exporter.go:155-181 | raw bounds 0 and 4093 remap onto a valid 1..4094 table that reads its end points exactly |
| Exporter.ExampleHalfTank | lls/exporter.go:155-181 | a 1000-liter table over raw 0..4094 is valid, a response with level bytes 0xFF and 0x07 decodes to raw 2047, and raw 2047 reads between 499 and 501 liters |
| Exporter.HalfTankLiters | lls/exporter.go:269-277 | raw 2047 on the line from (1, 0 L) to (4094, 1000 L) reads between 499 and 501 liters |
| Exporter.HalfTankRemap | lls/exporter.go:164 | with raw bounds 0 and 4094, the points at 0 and 4094 remap onto 1 and 4094 |
| Exporter.HalfTankReading | lls/exporter.go:245-257 | a response with level bytes 0xFF and 0x07 decodes to raw level 2047 |

## Left out

- Serial I/O: opening the port, reads, writes and their errors. Reads become a
  parameter (`chunks`) and writes become the returned request bytes.
- Reads that return zero bytes are not modelled. They would re-run the checks
  on an unchanged buffer.
- The HTTP server, Prometheus gauge registration and the gauges themselves.
  `Exporter.Observation` holds the five values the gauges are set to.
  Registering two sensors with the same name panics in the Prometheus
  library, which is not modelled.
- The goroutines, `errChan`/`stopChan`, `onError`, `Shutdown`, the read delay
  timer and logging. They are concurrency and timing, not protocol logic. The
  default delay and device are kept as the constants `DefaultReadDelaySec` and
  `DefaultDevice`.
- YAML decoding (`UnmarshalYAML`) is left out. Its defaults are kept as
  constants: `DefaultMinRaw` 1, `DefaultMaxRaw` 4094, `DefaultReadDelaySec` 1.
- `float64` rounding: liters are exact `real` numbers.
- Non-finite liters (NaN, +Inf, -Inf) are not modelled, because no `real`
  stands for them. The YAML decoder accepts `.nan` and `.inf`. The check at
  lls/exporter.go:171 is false when either side is NaN, so a table with a NaN
  point passes every check. Lines 269-277 can then publish NaN liters, which
  `Calibration.BuildTable` and `Exporter.HandleFrame` do not describe.
- Calibration.Remap: integers are unbounded, so the overflow of Go's `int`
  in `(raw - minRaw) * 4093` is not modelled. With a 64-bit `int` it wraps
  once `|raw - minRaw|` exceeds 2253450289971848 (about 2^51). With a 32-bit
  `int` (GOARCH 386 or arm) it wraps once `|raw - minRaw|` exceeds 524672
  (about 2^19).
- Exporter.Configure: requires `MaxRaw != MinRaw` for every sensor with two
  or more points that the loop reaches, that is, when every earlier sensor
  passed. Go divides by zero at line 164 for such a sensor and panics, and a
  panic is not modelled. Sensors after the first failing one are never
  remapped and are not constrained.
- Checksum.TableLinear: linearity is stated for the table, together with
  `Checksum.Crc8OneDependsOnXor`, rather than as one lemma about `crc8one` on
  XOR-ed pairs of arguments.
