# GPS fix accumulator and USB port matcher of `update_lat_lon_time.py`

This project models the two pure pieces of logic in the telescope clock and
location synchroniser `update_lat_lon_time.py`.

- **Fix accumulator** (`wait_for_fix`), module `FixAccumulator` in
  `fix_accumulator.dfy`. It consumes decoded NMEA records one at a time.
  - A GGA record with HDOP below 3 sets latitude, longitude and time of day together.
  - An RMC record whose status is `"A"` sets the date.
  - After every record, once all four values are known, it returns a `Fix`.
  - An operator interrupt (`KeyboardInterrupt`) makes it return `None`.
- **Port matcher** (the pure part of `identify_ports`), module
  `PortIdentification` in `port_identification.dfy`.
  - It searches each port's hardware id for `VID:PID=hhhh:hhhh` followed by a word boundary, ignoring case.
  - It builds a map from the two captured groups to the port's device name. A later entry overwrites an earlier one.
  - It fails if the GPS id `("1546", "01A7")` is missing, and then if the NexStar id `("067B", "23D3")` is missing.
  - Otherwise it returns both device names.

`results.dfy` holds the `Option` and `Result` types that stand in for
Python's `None` and for raised exceptions.

How the model is built:

- The blocking NMEA reader becomes a finite `seq<Msg>`. An interrupt is one
  more kind of record, `Interrupt`. An interrupt raised while a record is being
  handled discards that record's effect along with the rest of the local
  state, so it is the same as an `Interrupt` placed before that record.
- `Run` returns one of three outcomes: `Acquired(fix)`, `Cancelled`, or
  `Waiting(state)`. `Waiting` means the stream ended before a fix was
  complete. The Python function would still be blocked in `nmr.read()` at
  that point.
- `WaitForFix` maps both `Cancelled` and `Waiting` to `None`.
- `WaitForFixLoop` is the loop written with four local variables, as in the
  source. The loop invariant says that the rest of the loop computes the same
  outcome as the fold.
- `comports()` followed by `sorted(...)` becomes the input sequence of
  `PortInfo`, taken in the order it is given.
- `MatchAt(s, k)` is the definition of the pattern
  `VID:PID=([0-9A-F]{4}):([0-9A-F]{4})\b` with `re.IGNORECASE`, at position
  `k`. It covers the 8-character prefix in any case, four hex digits, a
  colon, four hex digits, and then the end of the text or a character outside
  `\w`. `SearchFrom` and `FindUsbId` are proved against it. `FindsComposed`
  and the concrete hardware-id lemmas read it back on whole hardware ids.
- `ParseAll` searches every entry's hardware id once. `PortMap` and
  `IdentifyPorts` are stated over the searched entries.

Two behaviours of the source are kept as they are:

- The `hdop` parameter of `wait_for_fix` is never read. The bound is the
  literal `3` in the comparison.
- The captured vendor and product ids keep the case they have in the hardware
  id. The constants they are compared with are upper case, so a hardware id
  that spells the GPS product as `01a7` does not find the GPS.

## Model

| member | source | states |
|---|---|---|
| FixAccumulator.Step | update_lat_lon_time.py:74-99 | A GGA with HDOP < 3 sets lat, lon and time from that record; any other record leaves all three as they were. An RMC with status "A" sets the date; any other record leaves the date as it was. |
| FixAccumulator.RejectedRecordsKeepState | update_lat_lon_time.py:88-99 | Any run of records that are neither accepted GGAs nor valid RMCs (GGAs with HDOP >= 3, void RMCs, other sentences) leaves the state exactly as it was, whatever it was. |
| FixAccumulator.AbsorbTracksLatest | update_lat_lon_time.py:88-99 | After any prefix of the stream, lat/lon/time are set iff an accepted GGA occurred, and then equal the latest accepted GGA's values. The date is set iff a valid RMC occurred, and then equals the latest one's date. A later GGA with poor HDOP never overwrites a good one. |
| FixAccumulator.Consume | update_lat_lon_time.py:71-104 | From any record in any state, applying the remaining records in turn: the loop returns the fix of the first complete state if no interrupt comes before that record; it is cancelled at the first interrupt if no state up to there is complete; otherwise it waits, with no interrupt and no complete state among the remaining records, holding the state after all of them. These three cases, stated once as `LoopOutcome`, decide the outcome. |
| FixAccumulator.Run | update_lat_lon_time.py:71-104 | From the empty state, the loop returns at the first record after which both an accepted GGA and a valid RMC have been seen, if no interrupt came first. The fix is built from the state at that record. An interrupt that arrives before the stream is ready cancels the wait. A stream that is never ready and never interrupted ends waiting, in the state of all records applied in turn. A fix comes back iff some prefix is ready and not interrupted. |
| FixAccumulator.WaitForFix | update_lat_lon_time.py:66-104 | A fix is returned iff some prefix of the stream has an accepted GGA and a valid RMC, in either order, and no interrupt. At the first ready record, the fix has the lat, lon and time of the latest accepted GGA and the date of the latest valid RMC. |
| FixAccumulator.InterruptYieldsNone | update_lat_lon_time.py:103-104 | An interrupt before the fix is complete yields None, never a partial fix. |
| FixAccumulator.NoFixWithoutBoth | update_lat_lon_time.py:100-101 | If the stream has no accepted GGA, or no valid RMC, no fix is returned. |
| FixAccumulator.GgaThenRmc | update_lat_lon_time.py:88-101 | After a prefix with neither kind of record and no interrupt, an accepted GGA then a valid RMC gives the fix with the GGA's position and time and the RMC's date. |
| FixAccumulator.RmcThenGga | update_lat_lon_time.py:88-101 | The same prefix followed by a valid RMC then an accepted GGA gives that same fix. |
| FixAccumulator.ArrivalOrderIrrelevant | update_lat_lon_time.py:88-101 | After a prefix with neither kind of record and no interrupt, an accepted GGA and a valid RMC complete the same fix whichever comes first. |
| FixAccumulator.ThresholdIsFixedAtThree | update_lat_lon_time.py:66-101 | A GGA followed by a valid RMC yields a fix iff the GGA's HDOP is below 3, whatever `hdop` argument is passed. |
| FixAccumulator.HdopArgumentIgnored | update_lat_lon_time.py:66 | The result does not depend on the `hdop` argument. |
| FixAccumulator.GoodGgaThenValidRmc | update_lat_lon_time.py:88-101 | GGA(34.0, -118.0, 10:00:00, HDOP 1.5) then a valid RMC dated 2024-06-01 gives Fix(34.0, -118.0, 2024-06-01, 10:00:00). The RMC's own time is ignored. |
| FixAccumulator.PoorGgaKeepsWaiting | update_lat_lon_time.py:88-99 | The same pair with HDOP 4.0 leaves the loop waiting, with only the date known. |
| FixAccumulator.VoidRmcIsSkipped | update_lat_lon_time.py:94-101 | An RMC with status "V" does not set the date. A later valid RMC completes the fix with its own date. |
| FixAccumulator.WaitForFixLoop | update_lat_lon_time.py:66-104 | The loop with four local variables returns what the fold returns. It returns a fix iff some prefix is ready and not interrupted. |
| PortIdentification.SearchFrom | update_lat_lon_time.py:27-29 | Returns the leftmost position at or after k where the whole pattern matches, boundary included. It returns nothing iff no position from k on matches. |
| PortIdentification.FindUsbId | update_lat_lon_time.py:27-34 | Returns nothing iff the pattern matches nowhere. Otherwise it returns the two groups of the leftmost match. |
| PortIdentification.FindsComposed | update_lat_lon_time.py:27-34 | A hardware id of the form (text without a `v`) + `VID:PID=` in any case + 4 hex digits + `:` + 4 hex digits + (nothing, or a non-word character) yields exactly the two hex runs as written. |
| PortIdentification.LowerCasePrefixMatches | update_lat_lon_time.py:27-34 | `vid:pid=` in lower case still matches, and the lower-case groups keep their case. |
| PortIdentification.NoBoundaryNoMatch | update_lat_lon_time.py:28-32 | A fifth hex digit right after the product id leaves no word boundary, so the entry has no id and is skipped. |
| PortIdentification.PortMap | update_lat_lon_time.py:24-36 | The map's keys are exactly the ids that some entry yields. Each key maps to the device of the last entry that yields it. Entries without a match add nothing. |
| PortIdentification.IdentifyPorts | update_lat_lon_time.py:20-44 | Fails with GpsNotFound iff no entry yields ("1546","01A7"). Fails with NexstarNotFound iff the GPS is present and no entry yields ("067B","23D3"). Otherwise it returns, for each id, the device of the last entry that yields it. |
| PortIdentification.LowerCaseGpsHwid | update_lat_lon_time.py:21-34 | `VID:PID=1546:01a7` yields the id ("1546","01a7"). That id is not the GPS id. |
| PortIdentification.NoGpsIdFails | update_lat_lon_time.py:24-39 | Any listing in which no hardware id yields ("1546","01A7") fails with GpsNotFound. |
| PortIdentification.LowerCaseGpsIsNotFound | update_lat_lon_time.py:21-39 | A listing whose GPS hardware id spells the product as `01a7` fails with GpsNotFound, even though the NexStar is present. |

## Left out

- `set_telescope_from_gps` (lines 107-157) is not part of this model. It opens serial sessions and calls the NexStar controller, `TimezoneFinder` and `pytz`, and the behaviour of those libraries is not visible here. This covers the timezone lookup, the UTC-to-local conversion, the daylight-saving flag, the controller writes and the read-back.
- Serial I/O, NMEA sentence decoding (`NMEAReader`) and port enumeration (`comports()`): their outputs are the input sequences of the model.
- `print` output is logging only.
- The ordering `sorted()` puts port entries in is pyserial's. The model takes the listing in the order it is given.
- Latitude, longitude and HDOP are `real`. Only the comparison `HDOP < 3` is modelled. Date and time are passed through as records and are never computed with.
- Records whose fields the decoder leaves empty are not modelled. In the source, an empty HDOP would make `<` raise a `TypeError`, which is not caught. Every GGA in the model carries a number.
- A read that yields no message is not modelled. In the source it would raise an `AttributeError`, which is not caught.
- WaitForFix: a stream that ends before a fix is complete returns None here. The source would block forever in that case. `Run` keeps the two apart as `Cancelled` and `Waiting`.
- FindUsbId: case-insensitive matching is modelled for ASCII letters only. Python's Unicode case-insensitive matching, which can equate a few non-ASCII characters with ASCII letters, is not modelled.
- FindUsbId: the word boundary after the product id uses the ASCII `\w` (letters, digits, underscore). Python's Unicode `\w` also counts non-ASCII letters and digits as word characters, so a non-ASCII letter right after the id would prevent a match there.
