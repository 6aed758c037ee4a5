# PawPass admission engine in Dafny

PawPass is the firmware of an animal door. A UHF reader reports the 12-byte
EPC identifiers of passing tags. A coordinator keeps two tables:

- a registry of allowed tags, each with a present flag and the time it was last seen;
- a table of up to ten reading intervals, each a daily window on selected weekdays.

The coordinator opens the door when a registered tag is seen. It closes the
door once every tag has been absent for longer than the grace period. It
enables the reader only inside an enabled interval. Intervals are created,
edited and deleted over a Bluetooth serial link with a small text protocol
(`s`, `upd`, `d`).

This project models the core of that firmware and proves properties of the model.

| file | module | models |
|---|---|---|
| `common.dfy` | `Common` | the C integer widths, the 12-byte EPC, `unsigned long` elapsed time, C division and remainder, `isspace`/`isdigit`/`tolower` |
| `schedule.dfy` | `Schedule` | the interval table as a value: stored ids, lookup, add, delete, the field setters, and the window evaluator with its clock arithmetic |
| `registry.dfy` | `Registry` | the tag allowlist as a value: lookup, registration, marking a tag seen, and the timeout sweep |
| `coordinator.dfy` | `Coordinator` | `SystemCoordinator` as a class over its fixed arrays, each method proved against `Schedule` and `Registry` |
| `wire.dfy` | `Wire` | the reader's frame layout `02 22`, five header bytes, the EPC, one trailer byte |
| `frame_parser.dfy` | `FrameParser` | the byte parser of `src/rfid.cpp` (with its 64-byte guard) as a step function |
| `gate_reader.dfy` | `GateReader` | the always-on reader of `src/rfid.cpp`: its `SystemState` switch and gate latch as functions, and `RFIDManager` as a class proved against them |
| `scan_parser.dfy` | `ScanParser` | the byte parser of `src/RFID/RFIDManager.cpp` as a step function |
| `scheduled_reader.dfy` | `ScheduledReader` | the scheduled `RFIDManager` as a class that drives the shared coordinator |
| `protocol.dfy` | `Protocol` | the text protocol as pure functions: time and day-list parsers, trim, tokenizer, verb dispatch, and the effect of a line on the interval table, with an encoder proved to be its inverse |
| `bluetooth.dfy` | `Bluetooth` | `BluetoothManager` as a class: line reading from the receive buffer, in-place trim and tokenizing over a `char` array, and dispatch onto the coordinator |
| `main_loop.dfy` | `MainLoop` | the firmware's `loop()`: one tick of Bluetooth, reader and coordinator, and the end-to-end door lemmas |

Time is the value of `millis()`, passed as a parameter of type `u32`. All
elapsed-time checks are unsigned 32-bit subtraction (`Common.Elapsed`), so
they remain correct when the clock wraps.

Two identifier quirks are reproduced as written:

- an interval id is stored truncated to 11 characters but compared on 12 (`Schedule.LongIdIsAcceptedTwice`);
- a days list such as `12345`, which reads naturally as Monday to Friday, is taken as one number out of range and gives the empty mask (`Protocol.DigitRunIsOneNumber`).

## Model

| member | source | states |
|---|---|---|
| Common.Elapsed | src/Core/SystemCoordinator.cpp:119 | `now - since` on `unsigned long`: the plain difference when the clock has not wrapped, the difference plus 2^32 when it has |
| Common.ToU16 | src/Bluetooth/BluetoothManager.cpp:86 | the cast to `uint16_t` keeps values in range and wraps values in -2^16..-1 by adding 2^16 |
| Common.CRem | src/Bluetooth/BluetoothManager.cpp:76-77 | C's `%` on `int`: `a == b * (a / b) + r`, with `r` taking the sign of `a` and `|r| < b` |
| Common.ToLower | src/Bluetooth/BluetoothManager.cpp:69 | only ASCII capitals change, and they become lower case |
| Schedule.StoredId | src/Core/SystemCoordinator.cpp:167-168 | the stored id is a prefix of the given id, at most 11 characters long, and equal to it when it fits |
| Schedule.FindIndex | src/Core/SystemCoordinator.cpp:137-145 | returns the first index whose stored id matches on 12 characters, or -1 exactly when none matches |
| Schedule.Add | src/Core/SystemCoordinator.cpp:147-181 | succeeds exactly when the table is not full and the id is not found; the result then keeps every record and appends one, enabled, with the id as stored (cut to 11 characters) and the given start, end and days |
| Schedule.Delete | src/Core/SystemCoordinator.cpp:210-232 | succeeds exactly when the id is found, and the result is one record shorter |
| Schedule.Modify | src/Core/SystemCoordinator.cpp:183-330 | a setter succeeds exactly when the id is found, and keeps the length of the table |
| Schedule.ShortIdMatchesExactly | src/Core/SystemCoordinator.cpp:141 | for a stored id of at most 11 characters, the 12-character comparison is plain equality |
| Schedule.LongIdIsAcceptedTwice | src/Core/SystemCoordinator.cpp:137-181 | a 12-character id is accepted a second time, because the stored copy is truncated and never matches it, so ids stop being unique |
| Schedule.AddKeepsIdsUnique | src/Core/SystemCoordinator.cpp:147-181 | adding an id of at most 11 characters keeps the table well formed and its ids unique, and the new record is found at the end |
| Schedule.AddThenDelete | src/Core/SystemCoordinator.cpp:147-232 | deleting the id just added gives back the table as it was |
| Schedule.DeleteShifts | src/Core/SystemCoordinator.cpp:222-224 | delete removes the matching record: the records before it stay in place and those after it move down by one |
| Schedule.DeleteKeepsWellFormed | src/Core/SystemCoordinator.cpp:210-232 | delete keeps the table within capacity |
| Schedule.DeleteRemovesOnlyThatId | src/Core/SystemCoordinator.cpp:210-232 | on a table with unique ids, delete removes exactly that record: the id is no longer found, and every other record is kept and nothing new appears |
| Schedule.ModifyTouchesOneRecord | src/Core/SystemCoordinator.cpp:183-330 | a setter on a known id keeps the length and every id, changes no record but the matched one, and keeps the table well formed with unique ids |
| Schedule.UnknownIdIsRejected | src/Core/SystemCoordinator.cpp:183-232 | delete and every setter fail on an id that matches no record |
| Schedule.MinuteOfDay | src/Core/SystemCoordinator.cpp:429-433 | the minute of the day is below 1440 |
| Schedule.Weekday | src/Core/SystemCoordinator.cpp:435-440 | the day counter modulo 7 is below 7 |
| Schedule.TodayBit | src/Core/SystemCoordinator.cpp:435-440 | today's bit is a single bit among the seven weekday bits |
| Schedule.Admits | src/Core/SystemCoordinator.cpp:376-400 | a record admits only when it is enabled and its start differs from its end |
| Schedule.ReadingAllowed | src/Core/SystemCoordinator.cpp:363-400 | reading is allowed only when some record is enabled with a start different from its end |
| Schedule.EmptyScheduleNeverAdmits | src/Core/SystemCoordinator.cpp:363-370 | with no intervals, reading is never allowed |
| Schedule.DaytimeWindow | src/Core/SystemCoordinator.cpp:384-391 | a window with start <= end admits exactly when enabled, today's bit is set and start <= now < end |
| Schedule.OvernightWindow | src/Core/SystemCoordinator.cpp:392-399 | a window with start > end admits exactly when enabled, today's bit is set and now >= start or now < end |
| Schedule.AddNeverNarrows | src/Core/SystemCoordinator.cpp:376-400 | adding an interval never turns reading off |
| Schedule.DeleteNeverWidens | src/Core/SystemCoordinator.cpp:376-400 | deleting an interval never turns reading on |
| Schedule.DisableNeverWidens | src/Core/SystemCoordinator.cpp:376-400 | disabling an interval never turns reading on |
| Schedule.DisabledRecordIsIgnored | src/Core/SystemCoordinator.cpp:379-380 | a disabled record admits at no time on no day |
| Registry.IndexOf | src/Core/SystemCoordinator.cpp:38-48 | returns the first index holding a byte-equal tag, or -1 exactly when no tag is equal |
| Registry.Register | src/Core/SystemCoordinator.cpp:55-70 | succeeds exactly when the id has 12 bytes and the table is not full; the result then keeps every record and appends the tag, absent |
| Registry.MarkSeen | src/Core/SystemCoordinator.cpp:72-87 | keeps the length and every id; an unknown tag changes nothing; a known tag's first record becomes present with last-seen now, and every other record is kept |
| Registry.RegisterMakesKnown | src/Core/SystemCoordinator.cpp:55-70 | a successful registration appends exactly that tag, which is then known |
| Registry.MarkSeenEffect | src/Core/SystemCoordinator.cpp:72-87 | an unknown tag changes nothing; a known tag marks only its own record present, with last-seen set to now |
| Registry.MarkAllEffect | src/Core/SystemCoordinator.cpp:72-87 | after a run of detections, exactly the records of the detected tags are present with last-seen now, and the others are unchanged |
| Registry.MarkAllKeepsKnown | src/Core/SystemCoordinator.cpp:72-87 | detections never change which tags are registered |
| Registry.GraceIsStrict | src/Core/SystemCoordinator.cpp:119 | for every last-seen time, also one near the top of the 32-bit clock: exactly 3000 ms later the tag is still present, and one millisecond later it expires, the clock wrapping to 0 in between if it must |
| Registry.Sweep | src/Core/SystemCoordinator.cpp:111-135 | keeps the length, every id and every last-seen time, and a tag stays present exactly when it was present and seen no more than 3000 ms ago |
| Registry.SweepOnlyClears | src/Core/SystemCoordinator.cpp:111-135 | the sweep keeps every id, only clears present flags, and a second sweep at the same time changes nothing |
| Registry.ReportKeepsPresence | src/Core/SystemCoordinator.cpp:111-135 | a registered tag seen within the grace period keeps some tag present through the sweep |
| Registry.AllExpiredEmpties | src/Core/SystemCoordinator.cpp:111-135 | when every present tag has expired, no tag is present after the sweep |
| Coordinator.SystemCoordinator.Begin | src/Core/SystemCoordinator.cpp:8-36 | starts with no intervals, the two default tags absent with last-seen 0, reading off and the door closed |
| Coordinator.SystemCoordinator.LoadDefaultTags | src/Core/SystemCoordinator.cpp:25-33 | the loop registers the two default tags in order, both absent with last-seen 0 |
| Coordinator.SystemCoordinator.FindTagIndex | src/Core/SystemCoordinator.cpp:38-48 | the loop returns the registry's first matching index, and a hit is a 12-byte tag stored at that index |
| Coordinator.SystemCoordinator.IsValidTag | src/Core/SystemCoordinator.cpp:50-53 | true exactly when some registered tag equals the given bytes, which then are 12 bytes long |
| Coordinator.SystemCoordinator.AddTag | src/Core/SystemCoordinator.cpp:55-70 | succeeds exactly when the length is 12 and the table is not full; it then appends the tag absent with last-seen 0, and otherwise changes nothing |
| Coordinator.SystemCoordinator.OnTagDetected | src/Core/SystemCoordinator.cpp:72-87 | the registry becomes `MarkSeen` of the old one, and the door is open afterwards exactly when it was open or the tag is registered |
| Coordinator.SystemCoordinator.OpenDoor | src/Core/SystemCoordinator.cpp:89-98 | the door ends open, and the servo is driven only when it was closed |
| Coordinator.SystemCoordinator.CloseDoor | src/Core/SystemCoordinator.cpp:100-109 | the door ends closed, and the servo is driven only when it was open |
| Coordinator.SystemCoordinator.CheckTagTimeouts | src/Core/SystemCoordinator.cpp:111-135 | the registry becomes its sweep at now, and the door stays open only if it was open and some tag is still present; it never opens |
| Coordinator.SystemCoordinator.FindIndexById | src/Core/SystemCoordinator.cpp:137-145 | the loop returns the value of `Schedule.FindIndex` on the stored intervals |
| Coordinator.SystemCoordinator.AddInterval | src/Core/SystemCoordinator.cpp:147-181 | succeeds exactly when `Schedule.Add` does (not full, id not present), stores its table, and then re-evaluates reading; on failure nothing changes |
| Coordinator.SystemCoordinator.UpdateIntervalTime | src/Core/SystemCoordinator.cpp:183-208 | on a known id sets start, end and days of that record and re-evaluates; on an unknown id nothing changes |
| Coordinator.SystemCoordinator.SetIntervalStatus | src/Core/SystemCoordinator.cpp:234-255 | on a known id sets that record's enabled flag and re-evaluates; on an unknown id nothing changes |
| Coordinator.SystemCoordinator.SetIntervalEnabled | src/Core/SystemCoordinator.cpp:257-261 | the same effect as `SetIntervalStatus` |
| Coordinator.SystemCoordinator.SetIntervalStart | src/Core/SystemCoordinator.cpp:263-284 | on a known id sets that record's start and re-evaluates; on an unknown id nothing changes |
| Coordinator.SystemCoordinator.SetIntervalEnd | src/Core/SystemCoordinator.cpp:286-307 | on a known id sets that record's end and re-evaluates; on an unknown id nothing changes |
| Coordinator.SystemCoordinator.SetIntervalDays | src/Core/SystemCoordinator.cpp:309-330 | on a known id sets that record's days mask and re-evaluates; on an unknown id nothing changes |
| Coordinator.SystemCoordinator.DeleteInterval | src/Core/SystemCoordinator.cpp:210-232 | succeeds exactly when the id is found, leaves the table `Schedule.Delete` gives, and re-evaluates; on failure nothing changes |
| Coordinator.SystemCoordinator.CloseGap | src/Core/SystemCoordinator.cpp:222-224 | the in-place shift leaves the stored records with the one at the index removed and the rest in order |
| Coordinator.SystemCoordinator.EvaluateNow | src/Core/SystemCoordinator.cpp:332-416 | the loop sets the reading flag to whether some enabled record admits the current minute on the current weekday |
| Coordinator.SystemCoordinator.Loop | src/Core/SystemCoordinator.cpp:418-427 | re-evaluates reading and restarts the period only when at least 60 s have passed, and always sweeps the tag timeouts |
| FrameParser.StepKeepsInv | src/rfid.cpp:111-154 | every byte keeps `epcIndex <= 12` and the state consistent, and a tag is emitted only on the trailer byte, after which the parser waits for a frame |
| FrameParser.Step | src/rfid.cpp:111-154 | a tag is emitted only inside a frame, after `02 22`, and it is the buffer the parser ends with, waiting for a frame with zeroed counters; a byte arriving with `dataAdd >= 64` emits nothing and leaves the parser waiting with zeroed counters |
| FrameParser.RunKeepsInv | src/rfid.cpp:111-154 | over any byte sequence, `epcIndex <= 12` and `dataAdd <= 21` |
| FrameParser.GuardDropsByte | src/rfid.cpp:113-117 | a byte arriving with `dataAdd >= 64` is dropped whatever its value, and the parser is reset |
| FrameParser.WaitStartStep | src/rfid.cpp:121-128 | waiting for a frame, every byte but 0x02 is ignored, and 0x02 moves on with the counters zeroed |
| FrameParser.GotStartStep | src/rfid.cpp:130-141 | after the start byte, 0x22 enters the frame with `dataAdd = 3` and `epcIndex = 0`, and any other byte resets |
| FrameParser.NoiseIsIgnored | src/rfid.cpp:121-128 | a waiting parser ignores any run of bytes without 0x02 |
| FrameParser.SkipHeader | src/rfid.cpp:143-152 | the header bytes of a frame only advance `dataAdd` |
| FrameParser.FillEpc | src/rfid.cpp:143-152 | the payload bytes fill the buffer in order |
| FrameParser.FrameRoundTrip | src/rfid.cpp:111-154 | one encoded frame yields exactly its EPC, and the parser ends waiting with that EPC in its buffer |
| FrameParser.FramesRoundTrip | src/rfid.cpp:111-154 | back-to-back frames yield their EPCs in order, each parsed on its own |
| GateReader.DetectEffect | src/rfid.cpp:156-182 | an unauthorized EPC changes nothing; an authorized one sets the detected flag and its time, and on the first detection opens the gate and enters DOOR_OPEN |
| GateReader.Detect | src/rfid.cpp:156-182 | an unauthorized EPC changes nothing; an authorized one records the detection at now, and on the first detection opens the gate and enters DOOR_OPEN; the parser and the byte and poll times are kept |
| GateReader.Drain | src/rfid.cpp:70-75 | the read loop keeps the poll time and, when some byte was read, stamps the last byte time with now |
| GateReader.Expire | src/rfid.cpp:240-248 | keeps the parser, the gate and the poll time, never sets the detected flag, and changes something only when the last detection is more than 3000 ms old, and then enters DOOR_CLOSING |
| GateReader.Dispatch | src/rfid.cpp:53-101 | in IDLE, READING and DOOR_OPEN a read command is sent exactly when 1000 ms have passed, and then the poll time becomes now, otherwise it stays; IDLE and DOOR_CLOSING leave the parser alone; DOOR_CLOSING closes the gate and returns to READING without a poll |
| GateReader.Next | src/rfid.cpp:38-104 | one `update` outside DOOR_CLOSING sends a read command exactly when 1000 ms have passed, then with the poll time now, otherwise keeping it; DOOR_CLOSING sends none; IDLE and DOOR_CLOSING leave the parser alone |
| GateReader.StartedKeepsGateInv | src/rfid.cpp:23-36 | the started reader satisfies the state invariant |
| GateReader.NextKeepsGateInv | src/rfid.cpp:38-104 | every `update` keeps the invariant tying the system state to the gate and the detected flag |
| GateReader.AuthorizedFrameOpensGate | src/rfid.cpp:64-81 | in READING, a frame with an authorized EPC opens the gate, enters DOOR_OPEN and records the detection |
| GateReader.UnauthorizedFrameIsIgnored | src/rfid.cpp:156-182 | a frame with an unauthorized EPC changes neither gate, state nor detection |
| GateReader.TagTimeoutStartsClosing | src/rfid.cpp:240-248 | in DOOR_OPEN, the door stays open up to 3000 ms after the last detection, and strictly later the reader clears the detection and enters DOOR_CLOSING |
| GateReader.ClosingClosesGate | src/rfid.cpp:97-100 | DOOR_CLOSING closes the gate and returns to READING without polling or parsing |
| GateReader.StalledFrameIsDropped | src/rfid.cpp:76-80 | in READING, a parser inside a frame whose last byte is more than 200 ms old is reset without emitting a tag |
| GateReader.NoStallCheckWhileOpen | src/rfid.cpp:83-95 | in DOOR_OPEN the idle timeout is not checked, so the parser is left as it is |
| GateReader.RfidManager.Begin | src/rfid.cpp:23-36 | starts in READING with the gate closed, nothing detected, the parser waiting and the byte and poll times at now; the read command sent at start is not reported |
| GateReader.RfidManager.ResetParser | src/rfid.cpp:250-255 | resets the parser and changes nothing else |
| GateReader.RfidManager.IsAuthorizedTag | src/rfid.cpp:184-220 | true exactly when the buffer equals a row of the authorized-tag table |
| GateReader.RfidManager.OpenDoor | src/rfid.cpp:222-229 | the gate ends open, and the servo is driven only when it was not |
| GateReader.RfidManager.CloseDoor | src/rfid.cpp:231-238 | the gate ends closed, and the servo is driven only when it was not |
| GateReader.RfidManager.HandleTagDetection | src/rfid.cpp:156-182 | does nothing unless 12 bytes were collected, and otherwise has the effect of `GateReader.Detect` |
| GateReader.RfidManager.ProcessByte | src/rfid.cpp:111-154 | one byte has the effect of one parser step followed by detection of a completed EPC |
| GateReader.RfidManager.ReadAvailable | src/rfid.cpp:70-75 | the read loop has the effect of the parser run over all waiting bytes |
| GateReader.RfidManager.CheckTagTimeout | src/rfid.cpp:240-248 | has the effect of `GateReader.Expire` |
| GateReader.RfidManager.Update | src/rfid.cpp:38-104 | one `update` has the effect of `GateReader.Next`, including whether a read command was sent |
| ScanParser.ScanStepKeepsInv | src/RFID/RFIDManager.cpp:81-124 | every byte keeps the counters consistent, and a tag is emitted only on byte 21 of a frame, after which all counters are cleared |
| ScanParser.ScanStep | src/RFID/RFIDManager.cpp:86-123 | a tag is emitted only inside a frame, once all 12 bytes are collected; it is the collected buffer, and the parser ends cleared |
| ScanParser.ScanKeepsInv | src/RFID/RFIDManager.cpp:81-124 | over any byte sequence, `epcIndex <= 12` and `dataAdd <= 21` |
| ScanParser.OutsideFrame | src/RFID/RFIDManager.cpp:88-99 | outside a frame, 0x02 in state 0 and 0x22 in state 1 advance, and every other byte clears all counters and the buffer |
| ScanParser.InsideFrame | src/RFID/RFIDManager.cpp:100-119 | inside a frame, header bytes only count, bytes 9..20 fill the buffer, and byte 21 emits the buffer and clears |
| ScanParser.ScanHeader | src/RFID/RFIDManager.cpp:100-119 | the header bytes only advance `dataAdd` |
| ScanParser.ScanEpc | src/RFID/RFIDManager.cpp:100-119 | the payload bytes fill the buffer in order |
| ScanParser.ScanStart | src/RFID/RFIDManager.cpp:88-99 | `02 22` enters a frame with `dataAdd = 3` and `epcIndex = 0` |
| ScanParser.ScanTrailer | src/RFID/RFIDManager.cpp:111-117 | the trailer byte emits the 12 collected bytes and clears the parser |
| ScanParser.ScanRoundTrip | src/RFID/RFIDManager.cpp:88-119 | one encoded frame yields exactly its EPC and leaves the parser cleared |
| ScanParser.ScanFramesRoundTrip | src/RFID/RFIDManager.cpp:88-123 | back-to-back frames yield their EPCs in order |
| ScanParser.ShortStreamCompletesNothing | src/RFID/RFIDManager.cpp:100-119 | fewer bytes than a frame still needs complete no tag |
| ScanParser.DoubledStartLosesFrame | src/RFID/RFIDManager.cpp:88-99 | an extra 0x02 before a frame makes the 0x02 of the frame a reset, so the frame yields nothing |
| ScheduledReader.RfidManager.Begin | src/RFID/RFIDManager.cpp:14-21 | starts with a cleared parser and the poll time at 0 |
| ScheduledReader.RfidManager.ResetStates | src/RFID/RFIDManager.cpp:23-30 | clears the state, the counters and the 12-byte buffer |
| ScheduledReader.RfidManager.HandleEpcComplete | src/RFID/RFIDManager.cpp:40-64 | a registered EPC is reported to the coordinator; an unregistered one changes nothing there |
| ScheduledReader.RfidManager.ConsumeByte | src/RFID/RFIDManager.cpp:86-123 | one byte has the effect of one parser step, and a completed EPC is reported to the coordinator |
| ScheduledReader.RfidManager.ReadAvailable | src/RFID/RFIDManager.cpp:81-124 | the read loop leaves the parser where the scan of all waiting bytes leaves it and reports every completed EPC in order |
| ScheduledReader.RfidManager.Loop | src/RFID/RFIDManager.cpp:66-125 | with reading off, clears the parser and does nothing else; with reading on, polls only when 1000 ms have passed and reports every EPC in the waiting bytes |
| Protocol.SkipSpaces | src/Bluetooth/BluetoothManager.cpp:53-54 | stops at the first non-space at or after the start, or at the end |
| Protocol.SkipWord | src/Bluetooth/BluetoothManager.cpp:202-203 | stops at the first space at or after the start, or at the end |
| Protocol.SkipDigits | src/Bluetooth/BluetoothManager.cpp:103-108 | stops at the first non-digit at or after the start, or at the end |
| Protocol.SkipOpening | src/Bluetooth/BluetoothManager.cpp:95-96 | stops at the first character that is neither a blank nor `[` |
| Protocol.SkipSeparator | src/Bluetooth/BluetoothManager.cpp:116-117 | stops at the next digit or `]`, or at the end |
| Protocol.BackOverSpaces | src/Bluetooth/BluetoothManager.cpp:58-61 | backs over trailing spaces only, stopping at a non-space or at the lower bound |
| Protocol.Trim | src/Bluetooth/BluetoothManager.cpp:48-62 | the result is no longer than the input and, when not empty, starts and ends with a non-space |
| Protocol.TrimShape | src/Bluetooth/BluetoothManager.cpp:48-62 | the trimmed text is the input's interior unchanged, with only whitespace removed around it, and starts and ends with a non-space |
| Protocol.TrimIdempotent | src/Bluetooth/BluetoothManager.cpp:48-62 | trimming twice is trimming once |
| Protocol.TrimKeepsTrimmed | src/Bluetooth/BluetoothManager.cpp:48-62 | text with no whitespace at either end is left as it is |
| Protocol.Atoi | src/Bluetooth/BluetoothManager.cpp:75 | the empty text gives 0, and a negative value needs a minus sign in the text |
| Protocol.ClockMinutes | src/Bluetooth/BluetoothManager.cpp:76-86 | for a value that is not negative, the minute is within the day, in its first half for `a` and in its second half for `p` |
| Protocol.ParseTime | src/Bluetooth/BluetoothManager.cpp:64-87 | the empty token gives 0; a token without a minus sign gives a minute within the day, in its first half when it ends in `a` or `A`, and in its second half when it ends in `p` or `P` |
| Protocol.AtoiOfDigits | src/Bluetooth/BluetoothManager.cpp:75 | on unsigned digit text, `atoi` is the decimal value and is not negative |
| Protocol.AccumulateStops | src/Bluetooth/BluetoothManager.cpp:75 | the digit loop stops at the first character that is not a digit, whatever follows |
| Protocol.AtoiReadsLeadingDigits | src/Bluetooth/BluetoothManager.cpp:75 | `atoi` reads the digits a text starts with and ignores the rest; a text starting with neither a digit, a blank nor a sign reads as 0 |
| Protocol.TimeIsInDay | src/Bluetooth/BluetoothManager.cpp:64-87 | a time token with unsigned digits before its suffix parses to a minute below 1440 |
| Protocol.ClockOfTwelveHour | src/Bluetooth/BluetoothManager.cpp:76-86 | the hour and minute arithmetic with the `a`/`p` rules gives back every minute of the day from its 12-hour clock reading |
| Protocol.ClockClamps | src/Bluetooth/BluetoothManager.cpp:76-86 | for any value that is not negative, the minute is its last two digits capped at 59 and the hour the digits before them capped at 12, moved into the morning by `a`, into the afternoon by `p`, and left as it is by any other suffix |
| Protocol.ParseTimeReadsFour | src/Bluetooth/BluetoothManager.cpp:71-74 | only the four characters before the suffix are read: a longer token reads as its first four characters and its suffix |
| Protocol.DigitsThenSuffix | src/Bluetooth/BluetoothManager.cpp:64-87 | a token of up to four digits and a suffix reads as the clock arithmetic of the digits' value and the suffix in lower case |
| Protocol.AccumulateThree | src/Bluetooth/BluetoothManager.cpp:75 | three digits read as their decimal value |
| Protocol.AccumulateFour | src/Bluetooth/BluetoothManager.cpp:75 | four digits read as their decimal value |
| Protocol.TimeOfDigits | src/Bluetooth/BluetoothManager.cpp:64-87 | a token of digits and a suffix parses to what the clock arithmetic makes of the digits' value |
| Protocol.TimeRoundTrip | src/Bluetooth/BluetoothManager.cpp:64-87 | every minute of the day, written as a 12-hour token, parses back to itself |
| Protocol.TimeExamples | src/Bluetooth/BluetoothManager.cpp:64-87 | "1200a" is 0, "1200p" is 720, "730a" is 450, "1230p" is 750, and the empty token is 0 |
| Protocol.MinuteCapped | src/Bluetooth/BluetoothManager.cpp:76-85 | "1375a" is 59: the minute 75 is capped at 59, the hour 13 at 12, and `a` makes 12 midnight |
| Protocol.HourCapped | src/Bluetooth/BluetoothManager.cpp:76-83 | "9999p" is 779: hour and minute capped at 12 and 59, and `p` leaves 12 as it is |
| Protocol.FifthDigitIgnored | src/Bluetooth/BluetoothManager.cpp:71-74 | "12345p" is 754: the fifth digit is not read |
| Protocol.UnknownSuffixKeepsHour | src/Bluetooth/BluetoothManager.cpp:82-85 | "730q" is 450: a suffix other than `a` or `p` leaves the hour as written |
| Protocol.NonNumericTimes | src/Bluetooth/BluetoothManager.cpp:75 | "xya" is 0 and "7xp" is 727: text that is not a number reads as 0, and a number stops at its first non-digit |
| Protocol.SignedTimeWraps | src/Bluetooth/BluetoothManager.cpp:75-86 | `atoi` accepts a sign, so "-5a" gives -5, which wraps to 65531 as a `uint16_t` |
| Protocol.DayBit | src/Bluetooth/BluetoothManager.cpp:109-115 | days 1..7 map to a non-zero bit below bit 7 |
| Protocol.ParseDays | src/Bluetooth/BluetoothManager.cpp:89-120 | the days parser never sets bit 7 |
| Protocol.DaysRoundTrip | src/Bluetooth/BluetoothManager.cpp:89-120 | every mask, rendered as a bracketed list, parses back to its seven weekday bits |
| Protocol.DaysTextRoundTrip | src/Bluetooth/BluetoothManager.cpp:89-120 | a mask without bit 7 parses back to itself exactly |
| Protocol.MondayAndSunday | src/Bluetooth/BluetoothManager.cpp:109-115 | "[1,7]" gives bits 1 and 0 |
| Protocol.DayNineIgnored | src/Bluetooth/BluetoothManager.cpp:109-115 | "[9]" gives the empty mask |
| Protocol.BareList | src/Bluetooth/BluetoothManager.cpp:95-118 | "1, 2, 3" without brackets gives bits 1, 2 and 3 |
| Protocol.DigitRunIsOneNumber | src/Bluetooth/BluetoothManager.cpp:103-109 | "12345" is one number out of range and gives the empty mask |
| Protocol.SplitFrom | src/Bluetooth/BluetoothManager.cpp:196-219 | with `count` tokens already cut, at most five less `count` more are cut |
| Protocol.Tokenize | src/Bluetooth/BluetoothManager.cpp:194-219 | a line gives at most five tokens, and none exactly when it is blank |
| Protocol.TokenizeJoin | src/Bluetooth/BluetoothManager.cpp:194-219 | joining up to four words and a rest with single spaces and tokenizing gives them back, the rest as one token |
| Protocol.ParsePlainLine | src/Bluetooth/BluetoothManager.cpp:194-229 | a line of up to five plain words is dispatched as those words |
| Protocol.Decode | src/Bluetooth/BluetoothManager.cpp:122-229 | a command is produced exactly for `s` with at least 4 tokens, `upd` with at least 4 tokens and a known field, or `d` with at least 2, with the verb in any case, and its id is the second token |
| Protocol.CreateCommand | src/Bluetooth/BluetoothManager.cpp:122-136 | a create is produced exactly when there are at least 4 tokens, with the second token as its id; without a days token, or with an empty one, it covers every day |
| Protocol.UpdateCommand | src/Bluetooth/BluetoothManager.cpp:138-169 | an update is produced exactly when there are at least 4 tokens and the field is known, with the second token as its id; a status edit enables exactly on the enabling words |
| Protocol.DeleteCommand | src/Bluetooth/BluetoothManager.cpp:171-179 | a delete is produced exactly when there are at least 2 tokens, with the second token as its id |
| Protocol.VerbCaseIgnored | src/Bluetooth/BluetoothManager.cpp:224-229 | verbs that differ only in letter case dispatch alike |
| Protocol.CreateRoundTrip | src/Bluetooth/BluetoothManager.cpp:122-136 | a create line carrying a days list decodes to the interval it describes |
| Protocol.CreateWithoutDays | src/Bluetooth/BluetoothManager.cpp:132-135 | a create line of four words, without a days list, decodes to the interval it describes on every day of the week |
| Protocol.UpdateRoundTrip | src/Bluetooth/BluetoothManager.cpp:138-169 | an `upd` line for `st`, `t1`, `t2` or `dt` decodes to that one field change |
| Protocol.DaysEditRoundTrip | src/Bluetooth/BluetoothManager.cpp:164-168 | a `dt` line decodes to the days mask it carries |
| Protocol.RemoveRoundTrip | src/Bluetooth/BluetoothManager.cpp:171-179 | a `d` line decodes to a delete of its id |
| Protocol.CommandRoundTrip | src/Bluetooth/BluetoothManager.cpp:122-179 | every sendable command, encoded as a line, decodes to itself |
| Protocol.ApplyKeepsWellFormed | src/Bluetooth/BluetoothManager.cpp:122-179 | an accepted command keeps the interval table within capacity |
| Protocol.SessionKeepsWellFormed | src/Bluetooth/BluetoothManager.cpp:181-231 | a whole session of lines keeps the interval table within capacity |
| Protocol.LineEffect | src/Bluetooth/BluetoothManager.cpp:194-229 | a line changes the table only when it parses to a command, and then by at most one record |
| Protocol.Session | src/Bluetooth/BluetoothManager.cpp:181-231 | a session in which no command is accepted leaves the table as it was, and an empty session accepts nothing |
| Protocol.SessionStopsAtBlank | src/Bluetooth/BluetoothManager.cpp:184-187 | a blank line ends the session, so the lines after it have no effect |
| Bluetooth.Strlen | src/Bluetooth/BluetoothManager.cpp:57 | the length is the index of the first NUL, or the whole buffer when there is none |
| Bluetooth.StrLen | src/Bluetooth/BluetoothManager.cpp:57 | the loop finds the first NUL of the buffer |
| Bluetooth.TrimInPlace | src/Bluetooth/BluetoothManager.cpp:48-62 | after the in-place moves and NUL writes, the buffer holds the trimmed string |
| Bluetooth.SpacesFrom | src/Bluetooth/BluetoothManager.cpp:53-54 | the pointer walk stops where `Protocol.SkipSpaces` does |
| Bluetooth.WordFrom | src/Bluetooth/BluetoothManager.cpp:202-203 | the pointer walk stops where `Protocol.SkipWord` does |
| Bluetooth.DropTrailing | src/Bluetooth/BluetoothManager.cpp:57-61 | writing NULs over trailing spaces leaves the string without them |
| Bluetooth.MoveDown | src/Bluetooth/BluetoothManager.cpp:55-56 | `memmove` moves the bytes down and leaves the rest of the buffer as it was |
| Bluetooth.NextLine | src/Bluetooth/BluetoothManager.cpp:18-46 | the stored line fits in the buffer with its NUL, and reading consumes at least one character when any is waiting |
| Bluetooth.Collect | src/Bluetooth/BluetoothManager.cpp:18-46 | reading never leaves more characters waiting than before, and fewer when a character is waiting and the buffer has room; the stored line fits the room |
| Bluetooth.CollectLeavesTail | src/Bluetooth/BluetoothManager.cpp:18-46 | reading only consumes: what stays waiting is a tail of what was waiting |
| Bluetooth.Lines | src/Bluetooth/BluetoothManager.cpp:184-187 | no more lines than characters, none exactly when nothing is waiting, and each fits the 64-byte buffer with its NUL |
| Bluetooth.Unread | src/Bluetooth/BluetoothManager.cpp:184-187 | what stays waiting is shorter than what was waiting, when anything was |
| Bluetooth.UnreadIsTail | src/Bluetooth/BluetoothManager.cpp:184-187 | what stays waiting after the loop is a tail of what was waiting |
| Bluetooth.LineReceived | src/Bluetooth/BluetoothManager.cpp:26-37 | a line ended by `\n` or `\r\n` is read whole, and the characters after the ending are left for the next read |
| Bluetooth.LongLineCut | src/Bluetooth/BluetoothManager.cpp:26 | a line of 63 characters fills the buffer and the read stops there |
| Bluetooth.FramedLines | src/Bluetooth/BluetoothManager.cpp:18-46 | lines sent with newlines are read back one by one |
| Bluetooth.FramedAllRead | src/Bluetooth/BluetoothManager.cpp:184-187 | a session of non-blank lines consumes the whole buffer |
| Bluetooth.FramedUnread | src/Bluetooth/BluetoothManager.cpp:184-187 | after the lines and a blank line, only what follows is left unread |
| Bluetooth.SessionOfNext | src/Bluetooth/BluetoothManager.cpp:181-231 | one pass of the loop reads one line; a blank line ends the session, and any other line is applied before the rest is read |
| Bluetooth.LoopStep | src/Bluetooth/BluetoothManager.cpp:184-229 | a failed read is a blank line, which ends the session; a successful one contributes the effect of its tokens ahead of the session of what stays waiting |
| Bluetooth.DaysStep | src/Bluetooth/BluetoothManager.cpp:97-118 | one pass of the days loop adds the bit of the number it read, if in 1..7, and moves on to the next digit or `]` |
| Bluetooth.SessionOfSent | src/Bluetooth/BluetoothManager.cpp:181-231 | a session of encoded commands has the effect of applying the commands in order |
| Bluetooth.CommandsApplied | src/Bluetooth/BluetoothManager.cpp:181-231 | commands sent over the link as lines are applied in order, and the buffer is left empty |
| Bluetooth.BluetoothManager.constructor | src/Bluetooth/BluetoothManager.cpp:5-8 | is bound to the coordinator, with nothing received yet |
| Bluetooth.BluetoothManager.Loop | src/Bluetooth/BluetoothManager.cpp:181-231 | the interval table becomes what the session of waiting lines makes of it, reading is re-evaluated when some command was accepted, and the unread rest stays in the buffer |
| Bluetooth.BluetoothManager.ServeLine | src/Bluetooth/BluetoothManager.cpp:186-229 | one pass reads a line; a blank one ends the session with the coordinator unchanged, any other one is dispatched, and what is left waiting carries the rest of the session |
| Bluetooth.BluetoothManager.HandleTokens | src/Bluetooth/BluetoothManager.cpp:221-229 | dispatch has the effect of `Protocol.Decode` and the matching coordinator call |
| Bluetooth.BluetoothManager.HandleCreateTokens | src/Bluetooth/BluetoothManager.cpp:122-136 | has the effect of the create command the tokens describe, or none when there are fewer than 4 |
| Bluetooth.BluetoothManager.HandleUpdateTokens | src/Bluetooth/BluetoothManager.cpp:138-169 | has the effect of the field change the tokens describe, or none for a short line or an unknown field |
| Bluetooth.BluetoothManager.HandleDeleteTokens | src/Bluetooth/BluetoothManager.cpp:171-179 | has the effect of deleting the named id, or none when there are fewer than 2 tokens |
| Bluetooth.BluetoothManager.ParseDaysListToMask | src/Bluetooth/BluetoothManager.cpp:89-120 | the pointer loop computes `Protocol.ParseDays` |
| Bluetooth.BluetoothManager.BlanksIn | src/Bluetooth/BluetoothManager.cpp:99-100 | the loop skips the blanks before a number |
| Bluetooth.BluetoothManager.SeparatorIn | src/Bluetooth/BluetoothManager.cpp:116-117 | the loop skips to the next digit or `]` |
| Bluetooth.BluetoothManager.ReadNumber | src/Bluetooth/BluetoothManager.cpp:101-108 | the loop accumulates the decimal value of the digit run and reports whether there was one |
| Bluetooth.BluetoothManager.ReadLine | src/Bluetooth/BluetoothManager.cpp:18-46 | fails at once on a zero-size buffer; otherwise stores the next line trimmed, consumes it, and succeeds exactly when a character was read and the line is not blank |
| Bluetooth.BluetoothManager.TextEnd | src/Bluetooth/BluetoothManager.cpp:213-218 | the backward walk stops after the last non-space of the rest of the line |
| Bluetooth.BluetoothManager.SplitLine | src/Bluetooth/BluetoothManager.cpp:194-219 | the in-place tokenizer gives `Protocol.Tokenize` of the line |
| Bluetooth.BluetoothManager.CutWords | src/Bluetooth/BluetoothManager.cpp:196-209 | the loop cuts at most four words, each the one `Protocol.Tokenize` gives, and stops at the end of the line or after the fourth |
| Bluetooth.BluetoothManager.CutOne | src/Bluetooth/BluetoothManager.cpp:201-208 | one pass cuts the next word and skips the blanks after it, or reaches the end of the line |
| MainLoop.TickReads | src/RFID/RFIDManager.cpp:68-72 | a closed gate reads no tag |
| MainLoop.Tick | src/main.cpp:21-27 | one tick applies the waiting commands, runs the reader only when the gate that results is open, reports its tags, re-evaluates when due and sweeps; the door ends open exactly when it was open or a registered tag was read, and a tag is still present; the coordinator's period restarts at now exactly when 60 s have passed; with the gate closed no poll is sent and the poll time stays, with it open a poll is sent exactly when 1000 ms have passed, and the poll time then becomes now |
| MainLoop.RegisteredFrameOpensDoor | src/main.cpp:23-25 | with the gate open, a frame carrying a registered tag is read, marks the tag, and leaves the door open after the same tick's sweep |
| MainLoop.DoorClosesAfterGrace | src/main.cpp:23-25 | when that tag was the only one present, a later tick that reads no tag more than 3000 ms after it was seen finds no tag present, so the door closes |

## Left out

- Serial I/O and its timing are not modelled. The Bluetooth receive buffer is a sequence of characters. The 2000 ms `readLine` timeout is read as "no more characters waiting", and `delay(1)` is dropped. New characters arrive only through `Bluetooth.BluetoothManager.Deliver`. The reader's waiting bytes are a parameter of each call.
- `millis()` is a parameter. It is fixed for the length of one call.
- Writing the poll command to the reader is reduced to a `polled` result. The read command `begin()` of `src/rfid.cpp` sends is not reported, because a constructor has no result; `GateReader.RfidManager.Begin` only stamps the poll time as that command does.
- The servo is reduced to the door/gate flag, and the `actuated` result says whether it would have been driven.
- Logging, `DEBUG_MODE` blocks, PROGMEM access and the `RFID_SIMULATION` hook are not modelled. The default and authorized tag tables are constant sequences.
- Null-pointer checks (`if (!s)`, `if (!token)`) are not modelled: strings are values and always exist.
- The `line[0] == '\0'` and `tokCount == 0` checks in the Bluetooth loop are not modelled. `readLine` never returns an empty line with success, and a non-empty trimmed line always has a first token.
- Bluetooth.BluetoothManager.SplitLine: builds each token as a slice of the line rather than by writing NULs into the buffer, so it does not capture that the buffer is overwritten.
- Protocol.ParseDays: the accumulator of the days parser is unbounded, whereas on the AVR target `int` is 16 bits and `n * 10 + digit` overflows past 32767. That overflow is undefined in C; on the target it wraps, so a run such as `65537` becomes 1 and sets Monday, and `65543` becomes 7 and sets Sunday. The model reads every run above 7 as out of range, so it differs from the firmware on runs above 32767.
- Protocol.Atoi: the value is unbounded, whereas `atoi` returns a 16-bit `int` on the AVR target. The width never matters here: `Protocol.ParseTime`, the only caller, passes at most four characters, so the value stays within -999..9999.
- The two `RFIDManager` classes are linked into separate builds. `MainLoop.Tick` composes the scheduled one (`src/RFID/RFIDManager.cpp`) with the coordinator. The always-on one (`src/rfid.cpp`) is modelled on its own in `GateReader`.
- Board bring-up, `delay(10)` at the end of `loop()` and the `begin` calls of the serial ports are not modelled.
