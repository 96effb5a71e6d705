# Firmware model

A Dafny model of the protocol engines and state machines of the car controller firmware, and of the packer of update
files in its build script. Each component has a value-level model, with its properties proved as
lemmas over all inputs or all runs, and where the firmware updates fields or buffers in place, a class whose methods
are proved equal to the steps of that model.

| files | component |
|---|---|
| `Bytes`, `Numbers` | octets, the 32-bit millisecond clock, numbers printed and parsed |
| `MqttCodec`, `MqttWire`, `MqttStream`, `MqttPumps`, `MqttFsmClient` | MQTT packets, the transmit and receive streams, the client |
| `ProgramTypes`, `ProgramModel`, `ProgramLaws`, `ProgramExecutor`, `RelayController`, `PoolManager` | the program executor with its relays and buffers |
| `OtaModel`, `OtaLayout`, `OTAHandler` | the update container, its packer and its reader |
| `AtomicJson` | replacement of a JSON file with power loss between any two operations |
| `ProgramDocument`, `ProgramReaders`, `ProgramHeaders`, `ProgramTexts`, `ProgramListeners`, `ProgramIndex` | stored programs, their printer, three readers and index |
| `ModemFilter`, `ModemTexts`, `Sim800TcpTransport`, `Rings`, `GSMController`, `AtSession`, `AtAnswers` | the modem byte filter, ring buffers and command session |
| `MqttCommandParser`, `CommandTexts` | the command parser |
| `UiSessions`, `WebServerRuntime` | the web session table |
| `BatterySaver` | the battery saver |
| `Crc16`, `StreamSinks` | checksums and chunked responses |

`dafny verify dfyconfig.toml` checks everything.

Time is a natural number of milliseconds and `millis()` its value modulo 2^32; that the wrapping comparisons agree
with unbounded time, and exactly when, is part of what is proved. Voltages are reals and program thresholds exact
hundredths, as printed. JSON documents are sequences of parser events, with or without an end. The network takes any
number of the offered bytes; every file operation may fail; power may go between any two of them.

Beside the round trips and refinements, the formats are fixed from outside, by bytes, positions and texts: `MqttWire`,
`OtaLayout`, `ModemTexts`, `CommandTexts` and `ProgramTexts`; and so is what whole programs, pumps and AT requests do:
`ProgramLaws`, `MqttPumps` and `AtAnswers`.

## What the model shows about the code

Some promises hold only under a condition. Each condition is proved to be the exact one.

- `buildPublish_` computes the packet size in 16 bits (src/mqtt/MqttFsmClient.cpp:565), so its size check is right
  exactly below 2^16 bytes (`MqttStream.SizeCheckExact`). Publishing is modelled under that bound.
- `parseOneFrame_` goes on after `setError_` and subtracts the frame length from a length already cleared
  (src/mqtt/MqttFsmClient.cpp:334, 365, 371): the buffer length becomes 65536 less the frame
  (`MqttFsmClient.Client.ParseOneFrame`), exactly for refused CONNACK and type-14 frames
  (`MqttCodec.ErrorExitExactly`). The receive theorems therefore exclude these.
- `putStr_` cuts a CONNECT string to the room that is left, so a configuration is sent as it is exactly when its strings
  fit 200 bytes together (`MqttCodec.ConnectRoundTrip`).
- `openWriteStream` builds the temp name in a 32-byte buffer and `closeWriteStream` in a 96-byte one, so files with
  names of 28 bytes or more cannot be installed by an update, and lose their old version, unless a stray file bears the
  long temp name and is installed in their place (`OtaModel.TmpNamesAgree`, `OtaModel.LongUnpack`). A file named like
  another one's temp file can be lost (`OtaModel.NothingLostExactly`).
- `extractFiles` skips a file that cannot be opened for writing and still reports success
  (`OtaModel.SkipsInSilence`): success installs the whole package exactly when what was skipped was there already
  (`OtaModel.NothingSkippedExactly`).
- `commitTmpToPath_atomic_` removes the target when it cannot rename it to the backup (src/fs/FSManager.Json.cpp:42-79),
  and a document cut short by a full flash is committed as a success (`AtomicJson.CallLeaves`): the two ways to be left
  with neither complete version (`AtomicJson.PowerLossSafety`). Paths over 61 bytes make the three names collide
  (`AtomicJson.NamesDiffer`), and the call then reports success without replacing anything, or loses the file
  (`AtomicJson.LongPathsFail`).
- The raw filter drops line ends and prompts wherever no line is pending, so a stream passes whole exactly under the
  condition of `ModemFilter.PassesWholeExactly`, and an MQTT PUBLISH of remaining length 10, 13 or 62 loses its length
  byte (`ModemFilter.ShortPublishIsDamaged`).
- The last byte of a payload announced by `+IPD` ends data mode before the raw filter is asked (src/modem/Sim800TcpTransport.cpp:240-255),
  so the payload arrives as sent exactly when that byte is text; otherwise the announcement and the byte follow once
  more (`ModemTexts.IpdPayloadExactly`).
- The packet identifier is incremented without leaving out zero (src/mqtt/MqttFsmClient.cpp:524), so the subscribe after
  65535 others carries the forbidden identifier 0 (`MqttPumps.IdIsZeroExactly`).
- A nested value inside a step makes the program readers deaf to the rest, and a program with an earlier step loads without
  that step and all later ones (`ProgramTexts.NestedValueBlinds`).
- `7.json` and `07.json` are both program 7 to the index (`ProgramIndex.NumberedNames`).
- A command with a timeout of more than 2^31 ms times out at once (`AtSession.LongTimeoutIsOver`).
- `isControlLine_` lists CLOSED and RDY but its length tests miss them when only blanks and line ends follow
  (`ModemFilter.WordsRecognised`, `ModemFilter.BareWordsPass`).
- The pool's 8-bit count is the number of holders exactly while at most 255 hold at once (`PoolManager.CountIsHolders`);
  256 nested holders read as none (`PoolManager.TakesWrap`). The firmware stays far below: `start` takes each executor
  slot once and file copies hold the scratch slot once.
- The text "null" in a stored string cannot be told from the JSON literal: a program or sensor of that name reads back
  without it, and a program with such an action does not load (`ProgramReaders.FullReadsPrinted`,
  `ProgramHeaders.ReprintsExactly`).
- A program file that cannot be opened or parsed, or an eleventh one, makes every check of the index fail again after
  each rebuild (`ProgramIndex.RebuiltIndexAgrees`).
- The battery saver's spacing gate closes again for the configured spacing after each 2^32 ms since the last start
  (`BatterySaver.SpacingAfterWrap`), and a stamp taken at clock reading zero is lost (`BatterySaver.AgreesWithIdeal`).
  The spacing and daily limits hold without any condition.
- A negative hysteresis, which no check refuses, makes samples below the threshold lie above threshold plus hysteresis,
  and the saver starts on them all the same (`BatterySaver.SpellsNeedHysteresis`).

## Model

| member | source | states |
|---|---|---|
| MqttCodec.EncodeRemainingLen | src/mqtt/MqttFsmClient.cpp:387-396 | For every length the digits written are the first four of the base-128 encoding, all of it exactly below 2^28 |
| MqttCodec.LenDigits | src/mqtt/MqttFsmClient.cpp:387-396 | The number of digits of an encoding is at most k exactly when the length is below 128^k |
| MqttCodec.DecodeRemainingLen | src/mqtt/MqttFsmClient.cpp:398-415 | Length with the number of bytes used, or nothing yet, as the reference decoder says, for every byte string; a fourth continuation bit, like a missing byte, is nothing yet |
| MqttCodec.LenRoundTrip | src/mqtt/MqttFsmClient.cpp:387-415 | Decoding an encoded length returns it and the number of its digits, whatever bytes follow (section 2.2.3 of MQTT 3.1.1) |
| MqttCodec.EncodingIsShortest | src/mqtt/MqttFsmClient.cpp:387-415 | No byte string that decodes to a length is shorter than the encoding of that length |
| MqttCodec.PrefixNeedsMore | src/mqtt/MqttFsmClient.cpp:398-415 | Every proper prefix of an encoded length asks for more bytes |
| MqttCodec.DecodeLenLocal | src/mqtt/MqttFsmClient.cpp:398-415 | The decoder depends only on the bytes it reports as used |
| MqttCodec.HeadLocal | src/mqtt/MqttFsmClient.cpp:298-316 | Bytes that arrive behind a complete or oversized frame do not change what its header says |
| MqttCodec.PacketHead | src/mqtt/MqttFsmClient.cpp:298-316 | Every packet built announces exactly its own length: it is framed as itself when it fits the receive buffer and refused as too large otherwise |
| MqttCodec.PublishRoundTrip | src/mqtt/MqttFsmClient.cpp:344-363 | A PUBLISH built for a receivable topic and payload parses back to the same topic, payload and retain flag, and leaves the following bytes (section 3.3) |
| MqttCodec.ErrorExitExactly | src/mqtt/MqttFsmClient.cpp:320-368 | The frames that end the session are exactly type 14 and a CONNACK with a nonzero code; one of each as witness |
| MqttCodec.StoredExactly | src/mqtt/MqttFsmClient.cpp:377-385 | The strings stored in the CONNECT payload buffer keep number and order, fit it, and are whole exactly when they all fit together |
| MqttCodec.StoredBytes | src/mqtt/MqttFsmClient.cpp:449-472 | Appending the strings one after another stores exactly those bytes, and is refused exactly when a string finds no room for its length |
| MqttCodec.ConnectRoundTrip | src/mqtt/MqttFsmClient.cpp:417-497 | A CONNECT is staged exactly when the client id is set and every string finds room; decoding it by section 3.1 of MQTT 3.1.1 gives protocol name, level and fields with the strings as stored, hence every configured field exactly when the strings fit the payload buffer |
| MqttCodec.LongClientIdIsCut | src/mqtt/MqttFsmClient.cpp:417-497 | A client id of 199 bytes is staged and does not arrive as configured |
| MqttStream.ParseThenDecode | src/mqtt/MqttFsmClient.cpp:292-375 | Parsing any number of frames now and decoding the rest later gives the events of decoding everything at once |
| MqttStream.TickDecodes | src/mqtt/MqttFsmClient.cpp:278-375 | One receive tick, with any read and frame budget, neither loses nor repeats an event, whatever arrives later |
| MqttStream.ReceiveIsChunkingIndependent | src/mqtt/MqttFsmClient.cpp:278-375 | Over any run of ticks without a dropped byte, the callbacks made, followed by those decoded from the residue and the unread bytes, are those of decoding the whole stream at once |
| MqttStream.DecodePrefix | src/mqtt/MqttFsmClient.cpp:278-375 | A prefix of a stream of well-formed frames yields a prefix of its events |
| MqttStream.SizeCheckExact | src/mqtt/MqttFsmClient.cpp:561-570 | The 16-bit size check of a PUBLISH refuses exactly what does not fit if and only if the size is below 2^16; a 65535-byte payload passes it |
| MqttStream.StepConserves | src/mqtt/MqttFsmClient.cpp:254-276 | One operation of any kind keeps: bytes taken by the network followed by the staged rest are the accepted packets in order |
| MqttStream.TransmitConserves | src/mqtt/MqttFsmClient.cpp:254-276 | The same over every run of connects, subscribes, pings, publishes and short writes: packets are neither lost nor interleaved |
| MqttStream.PrintedMatchesPlain | src/mqtt/MqttFsmClient.cpp:592-646 | A printed publish is accepted exactly when the second pass reports the measured length without running over the buffer and a plain publish of that many bytes is; it stages what the plain publish of the bytes printed would exactly when these are as many as reported |
| MqttStream.StagedIsFramed | src/mqtt/MqttFsmClient.cpp:417-590 | A packet staged by any accepted operation is one frame to a receiving client exactly when it is no DISCONNECT and has at most 320 bytes, and then carries the published topic and payload |
| MqttStream.RunIsFramed | src/mqtt/MqttFsmClient.cpp:417-590 | Every packet accepted over a run of operations is one frame, given no DISCONNECT and no publish over 320 bytes |
| MqttStream.PacketsDecode | src/mqtt/MqttFsmClient.cpp:278-375 | The concatenation of framed packets decodes to their events, in order |
| MqttStream.EndToEnd | src/mqtt/MqttFsmClient.cpp:254-375 | Sender and receiver together: for any operations without DISCONNECT and publishes over 320 bytes, under any short writes and any chunking without a dropped byte, the events received are those of the accepted packets in order, up to what is under way |
| MqttWire.LengthBytes | src/mqtt/MqttFsmClient.cpp:387-396 | Every length below 2^28 byte for byte: its base-128 digits, least significant first, the top bit on all but the last |
| MqttWire.LengthRead | src/mqtt/MqttFsmClient.cpp:398-415 | What the reader makes of any bytes: seven bits from each up to the first below 128, at most four |
| MqttWire.EventsExactly | src/mqtt/MqttFsmClient.cpp:318-368 | Which frames are which event, by the range of the first byte and the bytes of the body, both ways |
| MqttWire.PublishReceived | src/mqtt/MqttFsmClient.cpp:344-363 | A received PUBLISH of any quality of service gives topic, payload and retain flag, without the packet identifier that follows the topic when the QoS bits are set |
| MqttWire.BrokerReplies | src/mqtt/MqttFsmClient.cpp:298-375 | Concrete streams: CONNACK 20 02 xx cc opens the session or ends it by its code, SUBACK 90 03 acknowledges, PINGRESP D0 00 is ignored |
| MqttWire.LargestFrame | src/mqtt/MqttFsmClient.cpp:308-316 | A packet built is one frame up to 320 bytes and too large beyond, whatever follows |
| MqttWire.PublishBytes | src/mqtt/MqttFsmClient.cpp:571-585 | A PUBLISH is 30 or 31, its size, the topic length big-endian, topic and payload |
| MqttWire.SubscribeBytes | src/mqtt/MqttFsmClient.cpp:526-548 | A SUBSCRIBE is 82, its size, the packet identifier and topic length big-endian, topic and quality of service 0 |
| MqttWire.SubscribeRoundTrip | src/mqtt/MqttFsmClient.cpp:519-553 | Decoding a SUBSCRIBE by section 3.8 of MQTT 3.1.1 gives its packet identifier, the whole topic and quality of service 0 |
| MqttWire.ConnectFlagSum | src/mqtt/MqttFsmClient.cpp:434-445 | The connect flags add up from 2 for a clean session, 4 for a will, 8 times its QoS, 32 for its retain flag, 64 for a password and 128 for a user name, will bits only with a will |
| MqttWire.ConnectHeaderBytes | src/mqtt/MqttFsmClient.cpp:421-447 | The header begins 00 04 MQTT 04, or 00 06 MQIsdp 03 for MQTT 3.1, and goes on with the flags and the keep-alive big-endian |
| MqttWire.ConnectPayloadBytes | src/mqtt/MqttFsmClient.cpp:449-472 | When the strings fit, the payload is client id, will topic and message, user name and password, each behind its big-endian length |
| MqttWire.FitsExactly | src/mqtt/MqttFsmClient.cpp:449-472 | The strings fit exactly when they and two bytes of length each make at most 200 bytes |
| MqttWire.ConnectBytes | src/mqtt/MqttFsmClient.cpp:417-497 | Every staged CONNECT, byte for byte: type 10, a size that is that of the rest, name and level of the configured protocol, flags, keep-alive and the stored strings |
| MqttWire.StagedBytes | src/mqtt/MqttFsmClient.cpp:417-590 | What each accepted operation stages: the two bytes of PINGREQ and DISCONNECT, a SUBSCRIBE that decodes to topic and next identifier, the PUBLISH of the topic up to 255 bytes and the payload taken |
| MqttWire.StagedWhen | src/mqtt/MqttFsmClient.cpp:417-590 | Nothing is staged over a staged packet; before CONNACK only CONNECT, PINGREQ and DISCONNECT; a publish exactly when its packet has at most 448 bytes, a subscribe exactly for topics of 1 to 125 bytes |
| MqttPumps.DrainedExactly | src/mqtt/MqttFsmClient.cpp:254-276 | A pump takes exactly the least of the staged bytes, its budget, and what the network takes until it first takes nothing |
| MqttPumps.PumpsDeliver | src/mqtt/MqttFsmClient.cpp:254-276 | As many pumps as there are staged bytes, each with budget and a willing network, deliver the packet and leave nothing staged |
| MqttPumps.TickBudgets | src/mqtt/MqttFsmClient.cpp:278-296 | A tick reads exactly its byte budget or what there is, acts on at most its frame budget, and stops short of that only before an incomplete frame |
| MqttPumps.TickFinishes | src/mqtt/MqttFsmClient.cpp:278-375 | One tick whose budgets cover what there is, a frame having at least two bytes, makes every callback that decoding the whole stream makes |
| MqttPumps.IdsCount | src/mqtt/MqttFsmClient.cpp:519-525 | Over any run the packet identifier counts the subscribes that reach the builder, modulo 2^16 |
| MqttPumps.IdIsZeroExactly | src/mqtt/MqttFsmClient.cpp:519-525 | From a new client the next identifier is 0, which section 2.3.1 of MQTT 3.1.1 forbids, exactly after 65535 subscribes and each 65536 more |
| MqttFsmClient.Client.ResetSession | src/mqtt/MqttFsmClient.cpp:74-87 | Nothing is staged, the receive buffer is empty and no packet counts as accepted |
| MqttFsmClient.Client.BuildPublish | src/mqtt/MqttFsmClient.cpp:555-590 | In place in the transmit buffer, exactly the publish step of the transmit model; the result tells whether a packet was staged |
| MqttFsmClient.Client.PublishNow | src/mqtt/MqttFsmClient.cpp:106-113 | Refused unless connected and nothing is staged; otherwise the publish step |
| MqttFsmClient.Client.PublishPrintedMeasured | src/mqtt/MqttFsmClient.cpp:592-646 | Two passes of an encoder, whatever they write and report: exactly the printed-publish step, and nothing is staged on a mismatch |
| MqttFsmClient.Client.BuildSubscribe | src/mqtt/MqttFsmClient.cpp:519-553 | The subscribe step with its packet id, whether or not the topic is refused |
| MqttFsmClient.Client.BuildConnect | src/mqtt/MqttFsmClient.cpp:417-497 | The connect step; refused when a string finds no room for its length in the payload buffer |
| MqttFsmClient.Client.BuildPingreq | src/mqtt/MqttFsmClient.cpp:509-517 | Stages the two bytes of PINGREQ when nothing is staged |
| MqttFsmClient.Client.BuildDisconnect | src/mqtt/MqttFsmClient.cpp:499-507 | Stages the two bytes of DISCONNECT when nothing is staged |
| MqttFsmClient.Client.Drain | src/mqtt/MqttFsmClient.cpp:259-275 | The loop of short writes takes bytes from the staged packet in order until budget, packet or network room ends |
| MqttFsmClient.Client.PumpWrite | src/mqtt/MqttFsmClient.cpp:254-276 | The pump step: the wire grows by exactly the bytes the network took, the rest stays staged |
| MqttFsmClient.Client.PumpRead | src/mqtt/MqttFsmClient.cpp:280-290 | The receive buffer grows by the bytes read under the budget; those without room are dropped |
| MqttFsmClient.Client.FrontFrame | src/mqtt/MqttFsmClient.cpp:298-316 | The header at the front of the buffer: incomplete, too large, or whole with its header and total length |
| MqttFsmClient.Client.Consume | src/mqtt/MqttFsmClient.cpp:370-374 | The bytes behind the first frame move to the front |
| MqttFsmClient.Client.ParseOneFrame | src/mqtt/MqttFsmClient.cpp:298-375 | One frame is dispatched and removed; after the error exit the buffer length is 65536 less the frame length, so the buffer invariant survives exactly when there was no error exit |
| MqttFsmClient.Client.Dispatch | src/mqtt/MqttFsmClient.cpp:320-368 | The callbacks and replies of a complete frame |
| MqttFsmClient.Client.PumpReadAndParse | src/mqtt/MqttFsmClient.cpp:278-296 | One receive tick is the receive step of the stream model |
| ProgramModel.RunKeeps | src/program/ProgramExecutor.Core.cpp:63-184 | After any run of start, update and stop: both buffers are held exactly while running, a running program rests on a WAIT, pulse or STARTER step in range, and a valid starter relay is off between cranks |
| ProgramModel.NoUnreachableAbort | src/program/ProgramExecutor.Execute.cpp:14-88 | From power-up both pool counts are 1 exactly while running and 0 otherwise, the current step is in range and a pulse step rests on a valid relay: the range abort and the invalid-relay branches of update are unreachable |
| ProgramModel.StarterOffWhenLeaving | src/program/ProgramExecutor.Execute.cpp:90-170 | However a STARTER step is left (next step, finish, stop or abort), a valid starter relay is off at that moment |
| ProgramModel.CrankEndsOnTime | src/program/ProgramExecutor.Execute.cpp:96-126 | A crank ends at the first update by which its time is up, by unbounded time across clock wraps, no later than the configured maximum, and goes on unchanged until then or until its input reads active |
| ProgramModel.CranksAreBounded | src/program/ProgramExecutor.Execute.cpp:128-170 | A starter step cranks at most max(1, retries) times over any run of updates |
| ProgramModel.UpdateProgresses | src/program/ProgramExecutor.Execute.cpp:14-175 | Every update either waits, changing nothing, or lowers (steps left, attempts left, phase rank) lexicographically |
| ProgramModel.DueUpdatesProgress | src/program/ProgramExecutor.Execute.cpp:14-175 | An update at which the current wait is over always lowers that measure |
| ProgramModel.ProgramEnds | src/program/ProgramExecutor.Execute.cpp:14-175 | Enough updates with their wait over stop every program |
| ProgramModel.StartKeeps | src/program/ProgramExecutor.Core.cpp:63-126 | Starting, from idle or over a running program, reaches the invariant, whether a buffer is refused, the program is missing or empty, or it runs |
| ProgramModel.StopKeeps | src/program/ProgramExecutor.Core.cpp:128-142 | Stopping releases both buffers and leaves the invariant |
| ProgramLaws.RelayPrograms | src/program/ProgramExecutor.Execute.cpp:192-229 | For every relay id 2001 to 2005 and every relay state, a program of RELAY_ON, RELAY_OFF or RELAY_TOGGLE and a WAIT rests on the WAIT with that relay on, off or inverted and the others as they were |
| ProgramLaws.RelayAlone | src/program/ProgramExecutor.Execute.cpp:192-229 | The same as the only step, after which the program is over |
| ProgramLaws.ToggleTwice | src/program/ProgramExecutor.Execute.cpp:218-229 | Toggling a relay twice leaves every relay as it was |
| ProgramLaws.StraightPrograms | src/program/ProgramExecutor.Execute.cpp:177-350 | Any number of instant steps before a WAIT: the program rests on the WAIT, and each relay is as the steps that name it leave it, followed on its own |
| ProgramLaws.StopLeaves | src/program/ProgramExecutor.Core.cpp:128-142 | Stopping switches nothing but a valid starter relay in a starter step, which it switches off |
| ProgramLaws.PulseGoesOn | src/program/ProgramExecutor.Execute.cpp:32-88 | By unbounded time a pulse phase changes nothing before its time and switches exactly its relay at the first update after it |
| ProgramLaws.PulseProgram | src/program/ProgramExecutor.Execute.cpp:32-88 | The three moments of a pulse program: on, off, on for ON_OFF_ON and off, on, off for OFF_ON_OFF, the other relays as they were, and the program over |
| ProgramLaws.WaitEndsOnTime | src/program/ProgramExecutor.Execute.cpp:28-30 | A WAIT is left at the first update by which its time is up, by unbounded time, and not before |
| ProgramLaws.InputPrograms | src/program/ProgramExecutor.Execute.cpp:263-287 | Input steps with ids 1001 to 1003 enable or disable exactly that input and switch no relay |
| ProgramLaws.FlagPrograms | src/program/ProgramExecutor.Execute.cpp:315-348 | Battery saver and thermostat steps switch exactly their flag on or off; an unknown action does nothing |
| ProgramLaws.TriggerPrograms | src/program/ProgramExecutor.Execute.cpp:289-313 | A trigger step enables or disables the trigger whose id is found first, if among the first eight, and otherwise does nothing |
| ProgramLaws.BadRefPrograms | src/program/ProgramExecutor.Execute.cpp:192-287 | A relay or input that is not there ends the program with every relay off and both errors recorded, whatever steps follow |
| ProgramLaws.FirstCrank | src/program/ProgramExecutor.Execute.cpp:91-175 | The first update of a starter step switches the starter relay on and sets max(1, retries) attempts |
| ProgramLaws.CrankLength | src/program/ProgramExecutor.Execute.cpp:105-108 | A timed crank may last its step time or the vehicle maximum, whichever is less; any other the maximum |
| ProgramLaws.AfterCrank | src/program/ProgramExecutor.Execute.cpp:133-164 | After a crank and its wait, by unbounded time: on to the next step when the engine runs; else another crank after a second while attempts are left; else the program ends with the relays as they are |
| ProgramLaws.CranksExactly | src/program/ProgramExecutor.Execute.cpp:90-175 | With an engine that never runs a starter step cranks exactly max(1, retries) times and then ends the program |
| RelayController.BitOps | src/io/RelayController.Core.cpp:64-76 | Setting or clearing one bit of the 8-bit mask changes that relay and no other |
| RelayController.Controller.SetRelay | src/io/RelayController.Core.cpp:64-76 | Exactly the addressed relay takes the state and its time stamp, and an index past the last relay changes nothing |
| RelayController.Controller.SetMask | src/io/RelayController.Core.cpp:103-110 | Every relay takes its mask bit, and only relays that differ are switched |
| RelayController.Controller.Toggle | src/io/RelayController.Core.cpp:86-89 | Exactly the addressed relay is inverted |
| RelayController.Controller.AllOff | src/io/RelayController.Core.cpp:91-95 | Every relay is off |
| RelayController.Controller.GetState | src/io/RelayController.Core.cpp:112-115 | The bit of the addressed relay, and off for an index past the last |
| RelayController.Controller.CheckSafety | src/io/RelayController.Core.cpp:117-135 | Switches off exactly the relays over their limit, the starter relay only while a starter step runs, and switches none on |
| RelayController.ExpiresOnTime | src/io/RelayController.Core.cpp:125-126 | A relay is over its limit exactly when it has one and has been on for longer, by unbounded time across clock wraps |
| RelayController.BitsByMask | src/io/RelayController.Core.cpp:64-115 | Relay i is the bit of value 2^i |
| PoolManager.Pool.Acquire | src/common/PoolManager.Core.cpp:24-65 | A held slot is shared, a free one taken with zeroed count, a wrong size gets nothing; other slots stay as they are |
| PoolManager.Pool.Release | src/common/PoolManager.Core.cpp:67-71 | One reference less, never below zero; other slots stay as they are |
| PoolManager.CountIsHolders | src/common/PoolManager.Core.cpp:24-71 | Over any run of takes and releases of a slot, its count is the number of holders all along exactly while at most 255 hold at once |
| PoolManager.TakesWrap | src/common/PoolManager.Core.cpp:24-65 | n nested takes leave the count n modulo 256, which is n exactly up to 255 |
| ProgramExecutor.Executor.DoStart | src/program/ProgramExecutor.Core.cpp:63-126 | The start step on the executor, its pool and its relays, with the branches of a refused buffer, and whether it started |
| ProgramExecutor.Executor.DoStop | src/program/ProgramExecutor.Core.cpp:128-142 | The stop step |
| ProgramExecutor.Executor.DoNextStep | src/program/ProgramExecutor.Core.cpp:144-154 | The next-step function, through any chain of instant steps |
| ProgramExecutor.Executor.DoFinish | src/program/ProgramExecutor.Core.cpp:156-176 | Relays, buffers and timers after the last step |
| ProgramExecutor.Executor.AbortWithError | src/program/ProgramExecutor.Core.cpp:178-184 | Idle state after an abort, with the error recorded |
| ProgramExecutor.Executor.ExecuteStep | src/program/ProgramExecutor.Execute.cpp:177-350 | Entering a step: relays, inputs, triggers and flags as the action says, then waiting or moving on |
| ProgramExecutor.Executor.ExecuteRelayStep | src/program/ProgramExecutor.Execute.cpp:192-257 | Relay actions switch exactly their relay, pulses start their first phase, invalid relays abort |
| ProgramExecutor.Executor.ExecuteInputStep | src/program/ProgramExecutor.Execute.cpp:263-287 | Input enables and disables change exactly their input |
| ProgramExecutor.Executor.ExecuteTriggerStep | src/program/ProgramExecutor.Execute.cpp:289-313 | A configured trigger is switched, an unknown one is skipped |
| ProgramExecutor.Executor.DoUpdate | src/program/ProgramExecutor.Execute.cpp:14-175 | The update step of the model |
| ProgramExecutor.Executor.DoUpdatePulse | src/program/ProgramExecutor.Execute.cpp:32-88 | The two pulse phases of both pulse actions |
| ProgramExecutor.Executor.DoUpdateStarter | src/program/ProgramExecutor.Execute.cpp:90-170 | The starter phases with their retries |
| ProgramExecutor.Executor.GetTimerRemainingMs | src/program/ProgramExecutor.Core.cpp:36-61 | What is left of the current wait by the wrapped elapsed time, which is right by unbounded time exactly while the wait began less than a clock period ago or is over by wrapped time too |
| OtaModel.CopyIsExact | src/ota/OTAHandler.Files.cpp:48-66 | Copying in 256-byte chunks takes exactly the first bytes of the source whatever the chunk boundaries, and fails exactly when source or room is short |
| OtaModel.UnpackExactly | src/ota/OTAHandler.Files.cpp:48-76 | A file that could be opened is installed exactly when the flash takes its content, removes the old version and renames a temp file that is there, and the chunks do not show in what is installed |
| OtaModel.RecordsExtract | src/ota/OTAHandler.Files.cpp:9-79 | Extracting a list of written records succeeds exactly when every file that is not skipped goes through, and then leaves what writing or skipping them in turn leaves |
| OtaModel.SkipsInSilence | src/ota/OTAHandler.Files.cpp:41-46 | A file that cannot be opened for writing is passed over and the update still succeeds |
| OtaModel.TmpNamesAgree | src/fs/FSManager.Atomic.cpp:346-422 | The temp file is created and committed under the same name exactly when the path leaves room for the suffix in the 32-byte buffer |
| OtaModel.LongUnpack | src/fs/FSManager.Atomic.cpp:415-464 | On a flash that does not fail, a file with a longer name goes through exactly when a stray file bears the long temp name, whose content it then gets; otherwise it is not stored and its old version is gone |
| OtaModel.NothingLostExactly | src/fs/FSManager.Atomic.cpp:345-351 | Writing the accepted files in turn is overriding the old file system by them exactly when no old temp file that makes way is lost |
| OtaModel.NothingSkippedExactly | src/ota/OTAHandler.Files.cpp:41-46 | Overriding by the accepted files is overriding by the whole package exactly when every skipped file was there already |
| OtaModel.PackageRoundTrip | src/ota/OTAHandler.Firmware.cpp:11-83 | For every package of unique names, every updater and every behaviour of the flash: the update succeeds exactly when the updater takes the firmware, which it then has to the byte, and every file not skipped goes through; the flash then holds the old files overridden by the accepted ones, and by the whole package, exactly under the conditions above |
| OtaModel.ServedRoundTrip | src/ota/OTAHandler.Firmware.cpp:11-83 | On a flash that does not fail, stray temp files aside, the update succeeds exactly when every name leaves room for the temp suffix, and installs the package exactly when no temp name costs a file |
| OtaModel.TempNameIsLost | src/fs/FSManager.Atomic.cpp:345-351 | A package holding x.tmp before x loses the former on a flash that does not fail |
| OtaModel.SkippedFileIsMissing | src/ota/OTAHandler.Files.cpp:41-46 | A one-file package on a full flash: success, and no file |
| OtaLayout.FirmwareAt | build.py:635-636 | In what the packer writes bytes 0 to 3 are the firmware length, least significant first, and the firmware follows |
| OtaLayout.RecordAt | build.py:638-647 | Each record stands behind the earlier ones: two bytes of name length, the name, four bytes of content size, both least significant first, and the content |
| OtaLayout.LengthsRead | src/ota/OTAHandler.Files.cpp:13-37 | On every byte sequence the reader takes two and four bytes as little-endian numbers |
| OtaLayout.HeadByBytes | src/ota/OTAHandler.Files.cpp:12-37 | What the reader makes of the first bytes of a record, whatever they are: cut off, end, too long a name, or path and size |
| OtaLayout.NameEndsAtNul | src/ota/OTAHandler.Files.cpp:21-31 | A name is what stands before its first NUL |
| OtaLayout.FirmwareByBytes | src/ota/OTAHandler.Firmware.cpp:18-63 | On every container of four bytes and more the updater takes exactly the announced bytes, or the update fails and the flash is untouched |
| OtaLayout.ReaderEdges | src/ota/OTAHandler.Files.cpp:11-25 | An empty record list and a zero name length are success, a lone byte is not, and a name of 256 bytes and more is passed over, what follows it being read as a record |
| OtaLayout.TempNames | src/fs/FSManager.Atomic.cpp:346-422 | The two temp names: the path with .tmp behind it, cut at 31 and at 95 bytes |
| OtaLayout.SpaceNeeded | src/fs/FSManager.Atomic.cpp:329-345 | A file needs its size and 4096 bytes to spare, unless the sum runs over 32 bits |
| OtaLayout.FullFlashLeaves | src/ota/OTAHandler.Files.cpp:48-72 | When the flash fills up in a file the update fails, the old version and every other file stay, and the temp file is dropped exactly under a short name |
| OtaLayout.FailedCommitLeaves | src/fs/FSManager.Atomic.cpp:415-464 | A content that cannot be committed: an old version that cannot be removed stays, one that was removed is gone |
| OTAHandler.PackOta | build.py:634-647 | The packer writes firmware length, firmware and one record per file, and fails exactly when a length does not fit its field |
| OTAHandler.FlashFs.OpenWriteStream | src/fs/FSManager.Atomic.cpp:315-366 | Directory, free space and open tests in turn; the temp file is empty, or there is no stream and at most the old temp file is gone |
| OTAHandler.FlashFs.CloseWriteStream | src/fs/FSManager.Atomic.cpp:415-464 | Commit replaces the target by the temp file, or fails where removing or renaming fails; abort and failure drop the temp file if that succeeds |
| OTAHandler.Handler.CopyContent | src/ota/OTAHandler.Files.cpp:48-66 | The nested chunk loop copies as the chunk function says and leaves the cursor behind what it read |
| OTAHandler.Handler.ReadHead | src/ota/OTAHandler.Files.cpp:12-37 | Name and size of the record at the cursor, or the error, as the record grammar says |
| OTAHandler.Handler.StoreFile | src/ota/OTAHandler.Files.cpp:48-76 | Content copied and committed, or the temp file dropped |
| OTAHandler.Handler.ExtractFiles | src/ota/OTAHandler.Files.cpp:9-79 | On every byte sequence the loop ends, with the file system and verdict of the record semantics |
| OTAHandler.Handler.CopyFirmware | src/ota/OTAHandler.Firmware.cpp:43-63 | The firmware loop feeds the updater the announced bytes or stops at the first short read or write |
| OTAHandler.Handler.ProcessUpdateFile | src/ota/OTAHandler.Firmware.cpp:11-83 | The whole update on every byte sequence: verdict, bytes fed to the updater and file system as the container semantics says |
| AtomicJson.NamesDiffer | src/fs/FSManager.Json.cpp:94-97 | Path, temp file and backup are three different files exactly for paths of at most 61 bytes |
| AtomicJson.PowerLossSafety | src/fs/FSManager.Json.cpp:42-79 | After every single file operation the old content is complete at the path or its backup, or the new content is complete at the path: exactly unless the target is removed after a failed rename to the backup, or a document cut short by a full flash takes the place of the last complete content |
| AtomicJson.PowerCutLosesBoth | src/fs/FSManager.Json.cpp:42-79 | One call of each kind that leaves neither version: a failed backup with a removed target, and a full flash |
| AtomicJson.CommitEnds | src/fs/FSManager.Json.cpp:42-79 | How a commit ends: success, restored, or backup left behind, with the content at path, temp and backup |
| AtomicJson.CallEnds | src/fs/FSManager.Json.cpp:83-129 | A call refused before the commit leaves everything but the temp file as it was |
| AtomicJson.CallLeaves | src/fs/FSManager.Json.cpp:83-129 | Success leaves the bytes the temp file took, the whole document exactly when no write was short, and no temp file; failure leaves the old content unless a restore failed; every other file is untouched |
| AtomicJson.LongPathsFail | src/fs/FSManager.Json.cpp:83-129 | With a path over 61 bytes and every operation succeeding, the call reports success and leaves the old content, except at 63 bytes, where it fails and the file is gone |
| AtomicJson.SucceedsExactly | src/fs/FSManager.Json.cpp:83-129 | A call succeeds exactly for an absolute path, a directory, an open temp file that took more than nothing and less than the limit, and a rename into place, for which an old file that cannot be kept as backup has to go |
| AtomicJson.TempIsDropped | src/fs/FSManager.Json.cpp:83-129 | No temp file stays behind a call that got past the directory, as long as it can be removed |
| AtomicJson.NamesByLength | src/fs/FSManager.Json.cpp:46-97 | Temp file and backup are the path with .tmp and .bak behind it, cut at 63 bytes |
| AtomicJson.FSManager.CommitTmpToPath | src/fs/FSManager.Json.cpp:42-79 | In place on the flash, through exactly the states of the commit |
| AtomicJson.FSManager.WriteJsonAtomicStream | src/fs/FSManager.Json.cpp:83-129 | In place on the flash, through exactly the states of the call, with its verdict |
| Rings.RingHoldsNewest | src/modem/Sim800TcpTransport.cpp:344-370 | Under any mix of pushes and reads the receive ring is exactly the newest bytes pushed, as many as are unread: one more by each push up to 320, one less by each read |
| Rings.NothingIsDroppedExactly | src/modem/Sim800TcpTransport.cpp:344-370 | The bytes read followed by those held are all bytes pushed, in order, exactly when no push meets 320 unread bytes |
| Rings.RingSizes | src/modem/Sim800TcpTransport.cpp:344-353 | A byte more: the receive ring grows up to 320 bytes and the response up to 128, then the oldest makes way |
| Rings.RxRing.Push | src/modem/Sim800TcpTransport.cpp:344-353 | The byte joins the unread bytes, and the oldest is dropped when 320 are unread |
| Rings.RxRing.Read | src/modem/Sim800TcpTransport.cpp:359-365 | The oldest unread byte, removed, or -1 when there is none |
| Rings.RxRing.Peek | src/modem/Sim800TcpTransport.cpp:367-370 | The oldest unread byte, kept, or -1 |
| Rings.RxRing.Available | src/modem/Sim800TcpTransport.cpp:355-357 | The number of unread bytes |
| GSMController.ResponseRing.Append | src/gsm/GSMController.Core.cpp:202-213 | The response keeps the newest 128 bytes |
| GSMController.ResponseRing.Clear | src/gsm/GSMController.Core.cpp:197-200 | The response is empty |
| GSMController.ResponseRing.ResponseContains | src/gsm/GSMController.Core.cpp:215-234 | True exactly when a nonempty needle is a contiguous part of the response, across the wrap point |
| ModemFilter.IsControlLine | src/modem/Sim800TcpTransport.cpp:16-39 | The loop-based test is the definition of a control line |
| ModemFilter.WordsRecognised | src/modem/Sim800TcpTransport.cpp:16-39 | CLOSED and RDY are recognised exactly when more than blanks and line ends follows, OK exactly when nothing more does, the other words always |
| ModemFilter.BareWordsPass | src/modem/Sim800TcpTransport.cpp:16-39 | CLOSED and RDY on lines of their own are not recognised |
| ModemFilter.StepExplains | src/modem/Sim800TcpTransport.cpp:257-342 | Each received byte extends an account of the stream: passed on, pending, or in a removed control line, line end or prompt |
| ModemFilter.FilterExplained | src/modem/Sim800TcpTransport.cpp:257-342 | Over any bytes the account goes on, and the pending line stays below its buffer |
| ModemFilter.RawFilterSound | src/modem/Sim800TcpTransport.cpp:198-342 | From a fresh connection the passed bytes followed by the pending ones are an in-order subsequence of the received ones, everything removed is a control line, a line end at line start or a prompt with its line end, and the pending line has at most 63 bytes |
| ModemFilter.BinaryPassesAtOnce | src/modem/Sim800TcpTransport.cpp:257-342 | Over any stream the bytes outside the printable range all pass, in order, and none is ever pending |
| ModemFilter.NothingRemovedExactly | src/modem/Sim800TcpTransport.cpp:257-342 | From any state the bytes passed and pending are those that came exactly when none was a line end or prompt at line start and none completed a control line |
| ModemFilter.PassesWholeExactly | src/modem/Sim800TcpTransport.cpp:257-342 | A stream passes a fresh connection whole exactly when, besides, nothing is left pending |
| ModemFilter.ShortPublishIsDamaged | src/modem/Sim800TcpTransport.cpp:295-325 | An MQTT PUBLISH of remaining length 10, 13 or 62 loses its length byte, whatever follows |
| ModemFilter.HookIsFilter | src/modem/Sim800TcpTransport.cpp:198-255 | As long as the data matcher never reads payload, the byte hook is the raw filter |
| ModemTexts.LinesOfTheModem | src/modem/Sim800TcpTransport.cpp:16-39 | OK, ERROR, SEND OK, SEND FAIL and CONNECT OK with their line end are recognised, CLOSED and RDY are not |
| ModemTexts.EchoesAndCodes | src/modem/Sim800TcpTransport.cpp:25-36 | Anything that begins with AT, + or > is recognised |
| ModemTexts.FirstLetters | src/modem/Sim800TcpTransport.cpp:16-39 | A recognised line is blank or begins with one of A, O, E, R, C, S, > and + |
| ModemTexts.FirstByte | src/modem/Sim800TcpTransport.cpp:295-325 | What becomes of a byte at line start on an open connection: line ends and prompts go, nine first letters wait, everything else is payload at once |
| ModemTexts.Offline | src/modem/Sim800TcpTransport.cpp:257-342 | Without a connection only a pending line that meets a binary byte or the end of its buffer of 64 is passed on |
| ModemTexts.IpdPayloadExactly | src/modem/Sim800TcpTransport.cpp:198-255 | A payload announced by +IPD with its length arrives as sent exactly when its last byte is text, a tab or a line end; otherwise the announcement and the last byte follow once more |
| Sim800TcpTransport.Transport.OnByte | src/modem/Sim800TcpTransport.cpp:198-342 | The ring keeps the newest of what matcher and filter pass on, and line buffer and matcher follow the model |
| Sim800TcpTransport.Transport.RawFilter | src/modem/Sim800TcpTransport.cpp:257-342 | The raw part of the hook, in place on the line buffer |
| Sim800TcpTransport.Transport.Flush | src/modem/Sim800TcpTransport.cpp:286-293 | Everything pending and the byte itself reach the ring, in order |
| Sim800TcpTransport.Transport.EndLine | src/modem/Sim800TcpTransport.cpp:332-341 | A complete line is dropped or passed on, an incomplete one grows |
| AtSession.RunKeeps | src/modem/AtSession.cpp:14-125 | Over any run without reset: requests accepted are those started plus those queued, each class in order of acceptance, and each started request whose result was taken had exactly one result |
| AtSession.FreshRunIsDisciplined | src/modem/AtSession.cpp:3-125 | The same from a fresh session |
| AtSession.WritesOnlyFromIdle | src/modem/AtSession.cpp:30-68 | A command is written only by a tick in Idle, always when one is queued, high priority first |
| AtSession.DeadlineByUnboundedTime | src/modem/AtSession.cpp:58-68 | The signed comparison of clock readings agrees with unbounded time exactly when the distance of the instants is less than 2^31 ms modulo 2^32, in particular while they are less than 2^31 ms apart |
| AtSession.TimesOutOnTime | src/modem/AtSession.cpp:30-68 | A tick times the running request out or leaves it; that is right by unbounded time exactly when the distance from the deadline is less than 2^31 ms modulo 2^32, so for every timeout up to 2^31 ms at every tick less than 2^31 ms late; a zero timeout counts as one millisecond |
| AtSession.LongTimeoutIsOver | src/modem/AtSession.cpp:30-68 | A timeout of more than 2^31 ms is over at every tick more than 2^31 ms before its deadline, the first one included |
| AtAnswers.OutcomeExactly | src/modem/AtSession.cpp:50-115 | What ends a request in flight, and how: ok exactly by the line OK where expected, the awaited prompt, or any line where any is welcome and it is no error; error exactly by ERROR or a line holding +CME ERROR where OK is expected; timed out exactly by a tick past the deadline |
| AtAnswers.CaptureExactly | src/modem/AtSession.cpp:84-113 | An event captures a line exactly when none is captured yet and the line begins with the awaited prefix, or ends a request that welcomes any; it is cut to 63 characters |
| AtAnswers.ContainsExactly | src/modem/AtSession.cpp:101 | The search finds a text exactly when it stands somewhere in the line |
| AtAnswers.ResultMeans | src/modem/AtSession.cpp:30-125 | From launch to result over whole runs: events that do not end a request leave it in flight; the first that does gives the outcome, which waits to be taken whatever follows; the captured line is the first that begins with the prefix |
| AtAnswers.LaunchIsBlank | src/modem/AtSession.cpp:30-48 | A launched request is the head of the high queue, else of the normal one, with a blank result and a deadline at least a millisecond away, modulo 2^32 |
| AtAnswers.QueueRoom | src/modem/AtSession.cpp:14-28 | Room for six requests and two urgent ones |
| AtSession.AtSession.DoEnqueue | src/modem/AtSession.cpp:14-28 | In the ring queue: accepted at the back, or refused when full |
| AtSession.AtSession.StartNext | src/modem/AtSession.cpp:30-48 | Takes the head of the high queue, else of the normal one |
| AtSession.AtSession.DoTick | src/modem/AtSession.cpp:58-68 | Starts the next request or times out the running one |
| AtSession.AtSession.DoLine | src/modem/AtSession.cpp:81-115 | In place, the line step: final lines finish the request, a line with the awaited prefix is captured, others pass |
| AtSession.AtSession.DoByte | src/modem/AtSession.cpp:70-79 | A prompt ends a request that waits for one |
| AtSession.AtSession.TakeResult | src/modem/AtSession.cpp:117-125 | Hands out the result once and returns to Idle |
| MqttCommandParser.ObjectRoundTrip | src/mqtt/MqttCommandParser.cpp:46-111 | Parsing a printed flat object, any members in any order with any white space within the length limits, gives its last action and last program |
| MqttCommandParser.CommandRoundTrip | src/mqtt/MqttCommandParser.cpp:113-132 | A printed run command for ids 1..255 and a printed list command parse back to themselves |
| CommandTexts.CommandsRead | src/mqtt/MqttCommandParser.cpp:113-132 | The document {"action":a,"program":n}: run and run_program give the program for n from 1 to 255, list_programs the list, every other action of at most 47 characters and every other n below 2^32 nothing |
| CommandTexts.LimitsOfMembers | src/mqtt/MqttCommandParser.cpp:22-96 | A key of 16 characters, a string of 48 or a number of 24 refuses the document |
| CommandTexts.NotAnObject | src/mqtt/MqttCommandParser.cpp:46-65 | What does not begin with a brace, or goes on behind the closing one, is refused; an empty object is no command |
| MqttCommandParser.ParsesPrintedNumber | src/mqtt/MqttCommandParser.cpp:7-15 | Every printed 8-bit number is read back |
| MqttCommandParser.ReadJsonStringContent | src/mqtt/MqttCommandParser.cpp:22-44 | Terminates on every text, with the content and rest of the string grammar or a failure, inside the output buffer |
| MqttCommandParser.ParseFlatObject | src/mqtt/MqttCommandParser.cpp:46-111 | Terminates on every text and agrees with the object grammar |
| MqttCommandParser.ParseMqttCommandJson | src/mqtt/MqttCommandParser.cpp:113-132 | Terminates on every text and agrees with the command grammar |
| UiSessions.TouchServes | src/web/WebServer.Runtime.cpp:379-418 | Touching keeps ids nonzero and distinct, serves the id, disturbs nobody while a slot is free or the id is known, and otherwise evicts one session of greatest age mod 2^32 |
| UiSessions.CloseKeeps | src/web/WebServer.Runtime.cpp:420-431 | Closing removes exactly that id and keeps the invariant |
| UiSessions.ExpireKeeps | src/web/WebServer.Runtime.cpp:141-156 | Expiry keeps the invariant |
| UiSessions.TouchIsLru | src/web/WebServer.Runtime.cpp:379-418 | A touch is a step of an LRU cache in unbounded time while no session is a clock period old |
| UiSessions.ExpireRemoves | src/web/WebServer.Runtime.cpp:141-156 | Expiry keeps exactly the sessions touched less than a minute ago |
| UiSessions.MinuteAndFour | src/web/WebServer.Runtime.cpp:141-156 | Of the four slots a sweep frees exactly those not touched for 60000 ms, by unbounded time |
| UiSessions.TouchesKeepTopFour | src/web/WebServer.Runtime.cpp:379-418 | After any run of touches at strictly increasing times, none of the four latest ids a clock period old at the next touch, the table holds exactly the four most recently touched ids with their last touch |
| UiSessions.RunsAreCaches | src/web/WebServer.Runtime.cpp:141-172 | Any run of touches, closes and sweeps, through any number of clock wraps, is the LRU cache with one-minute expiry, given a sweep at least every 2^32 ms less a minute |
| WebServerRuntime.WebServer.TouchUiSession | src/web/WebServer.Runtime.cpp:379-418 | The single pass with its early exit stores the touched table, fails only for id zero, and keeps the active count equal to the number of active slots |
| WebServerRuntime.WebServer.CloseUiSession | src/web/WebServer.Runtime.cpp:420-431 | Reports whether a session was closed, and keeps the count |
| WebServerRuntime.WebServer.ProcessUiSessions | src/web/WebServer.Runtime.cpp:141-172 | Expires exactly the old slots, keeps the count, and closes the event stream exactly when the last session goes and the stream has clients or a queue |
| WebServerRuntime.WebServer.RebuildActiveUiSessionCount | src/web/WebServer.Runtime.cpp:433-439 | The count is the number of active slots |
| BatterySaver.StartsAreSpaced | src/core/Core.BatterySaverManager.cpp:72-79 | Over whole runs and any clock wraps, starts are at least the configured spacing apart, and the first one that long after boot |
| BatterySaver.ResetsAreDaysApart | src/core/Core.BatterySaverManager.cpp:47-54 | Counter resets are at least 86,400,000 ms apart |
| BatterySaver.DailyLimit | src/core/Core.BatterySaverManager.cpp:51-78 | A stretch that ends with a start and holds no reset after its first operation has at most the configured number of starts |
| BatterySaver.StartsFollowLowSpells | src/core/Core.BatterySaverManager.cpp:62-86 | For every configuration each start follows, by at least the configured time, a low sample since which the saver stayed enabled and no processed sample at or above the threshold rose above threshold plus hysteresis |
| BatterySaver.SpellsNeedHysteresis | src/core/Core.BatterySaverManager.cpp:62-86 | A sample below the threshold never counts as risen, and every start waits for a spell in which no processed sample rose above threshold plus hysteresis, exactly when the hysteresis is not negative |
| BatterySaver.NegativeHysteresisStarts | src/core/Core.BatterySaverManager.cpp:62-86 | With a hysteresis of -1 V two samples above threshold plus hysteresis start the program |
| BatterySaver.AgreesWithIdeal | src/core/Core.BatterySaverManager.cpp:36-87 | While no stamp is a clock period old, the saver starts exactly when one with unbounded time and options would, and stays in step with it exactly unless a stamp is taken at clock reading zero |
| BatterySaver.SpacingAfterWrap | src/core/Core.BatterySaverManager.cpp:72 | With older stamps the spacing gate agrees with unbounded time exactly when the wrapped difference has passed the spacing again |
| BatterySaver.IdlePeriodDelaysAStart | src/core/Core.BatterySaverManager.cpp:72 | A saver idle for a whole clock period refuses a start that is long due |
| BatterySaver.StartsExactly | src/core/Core.BatterySaverManager.cpp:36-87 | When an update starts the program: everything enabled, a program set, a valid voltage below the threshold, and spell, spacing and the count in the current 24 hours all allowing it |
| BatterySaver.LowTimerExactly | src/core/Core.BatterySaverManager.cpp:36-87 | What each update makes of the low-voltage timer: it starts with the first low sample, is cleared by a start, by a due start without a program and by a voltage above threshold plus hysteresis, and runs on otherwise |
| BatterySaver.BatterySaverManager.Update | src/core/Core.BatterySaverManager.cpp:36-87 | In place, the update step with its early returns, and whether the program is started |
| Numbers.ReadsPrinted | src/config/Config.ProgramJsonIo.cpp:24-30 | Every printed 32-bit number reads back as itself |
| Numbers.ReadsFixed | src/config/Config.ProgramJsonIo.cpp:19-22 | A value in hundredths survives printing with two decimals and reading |
| ProgramDocument.KeysAreRecognised | src/config/Config.ProgramJsonIo.cpp:550-569 | All printed keys are distinct and fit the 24-byte key buffer |
| ProgramDocument.EmitProgramBody | src/config/Config.ProgramJsonIo.cpp:657-693 | The printing loops produce the document of the program |
| ProgramDocument.StepReads | src/config/Config.ProgramJsonIo.cpp:550-569 | Reading the members printed for a step, with the defaults for those left out, gives its normal form |
| ProgramReaders.TruncationIsHarmless | src/config/Config.ProgramJsonIo.cpp:44-71 | Truncating to the stored buffers never turns a text into a keyword or out of one |
| ProgramReaders.ReadersAgree | src/config/Config.ProgramJsonIo.cpp:424-655 | On every document at all that the full reader accepts, the compiled reader returns the name and the compilation of the same steps exactly when no root id differs from the wanted one, and fails otherwise; the id is the last root id |
| ProgramReaders.FullReadsPrinted | src/config/Config.ProgramJsonIo.cpp:513-583 | A printed program reads back, to its normal form, exactly when it has an id, steps, and actions neither empty nor "null" |
| ProgramHeaders.StepsAreSkipped | src/config/Config.ProgramJsonIo.cpp:343-400 | Anything balanced inside the steps array, nested up to 254 deep, leaves the header reader where it was |
| ProgramHeaders.HeaderIgnoresSteps | src/config/Config.ProgramJsonIo.cpp:322-422 | The header reader returns id and name whatever the steps hold, exactly when the id is that of the file |
| ProgramHeaders.ThreeReadersAgree | src/config/Config.ProgramJsonIo.cpp:322-693 | On every printed program with id, steps and usable actions, the full reader returns the normal form, the compiled reader its compilation, and the header reader its id and name |
| ProgramHeaders.ReprintsExactly | src/config/Config.ProgramJsonIo.cpp:657-693 | Printing what was read gives the same document exactly when every step is numbered and no text is "null" |
| ProgramHeaders.NormalIsSettled | src/config/Config.ProgramJsonIo.cpp:513-583 | The normal form of a normal form is itself |
| ProgramTexts.NamesAreExact | src/config/Config.ProgramJsonIo.cpp:44-65 | A text compiles to an action exactly when it is the name of that action, and to UNKNOWN exactly when it is the name of none |
| ProgramTexts.RelayNames | src/config/Config.ProgramJsonIo.cpp:47-53 | The relay names compile to their own action, and no other text does |
| ProgramTexts.WaitingNames | src/config/Config.ProgramJsonIo.cpp:46-50 | The same for the wait and the two starter actions |
| ProgramTexts.InputNames | src/config/Config.ProgramJsonIo.cpp:54-55 | The same for the two input actions |
| ProgramTexts.TriggerNames | src/config/Config.ProgramJsonIo.cpp:56-57 | The same for the two input trigger actions |
| ProgramTexts.TemperatureNames | src/config/Config.ProgramJsonIo.cpp:58-59 | The same for the two temperature trigger actions |
| ProgramTexts.SaverNames | src/config/Config.ProgramJsonIo.cpp:60-61 | The same for the battery saver |
| ProgramTexts.ThermostatNames | src/config/Config.ProgramJsonIo.cpp:62-63 | The same for the thermostat |
| ProgramTexts.ComparisonNames | src/config/Config.ProgramJsonIo.cpp:67-71 | Only the text below means that comparison |
| ProgramTexts.DigitsPrinted | src/config/Config.ProgramJsonIo.cpp:661 | Numbers are printed digit by digit, highest first |
| ProgramTexts.HundredthsPrinted | src/config/Config.ProgramJsonIo.cpp:686 | A threshold is printed as whole, point and two decimals, with a minus sign in front |
| ProgramTexts.NumbersRead | src/config/Config.ProgramJsonIo.cpp:24-30 | Numbers read back, saturate at 2^32 - 1, and are spoilt by anything behind them that is no digit |
| ProgramTexts.NegativeNumbersRead | src/config/Config.ProgramJsonIo.cpp:24-30 | A minus sign negates in 32 bits |
| ProgramTexts.FieldsRead | src/config/Config.ProgramJsonIo.cpp:32-42 | Fields cut larger numbers to 255 or 65535 and keep their default for what is no number |
| ProgramTexts.PrintedHead | src/config/Config.ProgramJsonIo.cpp:670-675 | The members of a printed step by key, condition and text: number, action, relay for relay actions, times and input |
| ProgramTexts.PrintedMiddle | src/config/Config.ProgramJsonIo.cpp:676-681 | The same for sensor, triggers, program and retries |
| ProgramTexts.PrintedTail | src/config/Config.ProgramJsonIo.cpp:682-689 | The same for the conditions |
| ProgramTexts.PrintedHeader | src/config/Config.ProgramJsonIo.cpp:660-662 | The members that open the document |
| ProgramTexts.CompiledReadsPrinted | src/config/Config.ProgramJsonIo.cpp:591-693 | The compiled reader keeps every number of a printed step, and action and comparison by name; only the relay of a step that is no relay action is dropped and the two states become 0 or 1 |
| ProgramTexts.PrintedRelayProgram | src/config/Config.ProgramJsonIo.cpp:44-71 | From text to relay: a printed program of one relay step, read by the compiled reader and started, leaves the named relay on, off or inverted as its text says, and the others as they were |
| ProgramTexts.NestedValueBlinds | src/config/Config.ProgramJsonIo.cpp:442-494 | A nested value where none is known blinds both readers to the rest of the document: what they have by then is what they give |
| ProgramTexts.StepBeginsExactly | src/config/Config.ProgramJsonIo.cpp:517-642 | Exactly fifteen steps can begin in either reader |
| ProgramTexts.TextsAreCut | src/config/Config.ProgramJsonIo.cpp:517-575 | Texts are cut to 23 characters of an action, 15 of a sensor name, 7 of a comparison, 31 of a program name and 23 of a key |
| ProgramTexts.SixteenthStepFails | src/config/Config.ProgramJsonIo.cpp:517-642 | A sixteenth step refuses the program in both readers, whatever it holds |
| ProgramListeners.StaysShaped | src/config/Config.ProgramJsonIo.cpp:442-494 | The stack is always a prefix of root, steps array, step object, so its twelve places always suffice and a step is stored only in range |
| ProgramListeners.SkipStepsRootListener.On | src/config/Config.ProgramJsonIo.cpp:442-511 | The callbacks move stack, junk mode and key buffer in place as the skeleton function says |
| ProgramListeners.FullProgramListener.On | src/config/Config.ProgramJsonIo.cpp:517-575 | The full reader in place: steps array, count, name and failure |
| ProgramListeners.CompiledProgramListener.On | src/config/Config.ProgramJsonIo.cpp:591-642 | The compiled reader in place |
| ProgramListeners.HeaderListener.On | src/config/Config.ProgramJsonIo.cpp:343-414 | The header reader in place, with its 8-bit nesting level |
| ProgramListeners.ParseProgramObject | src/config/Config.ProgramJsonIo.cpp:711-715 | Reading a whole file: the program, or nothing, and nothing when the document is cut off |
| ProgramListeners.ParseProgramCompiled | src/config/Config.ProgramJsonIo.cpp:717-723 | Reading a whole file: name and compiled steps, or nothing, and nothing when the document is cut off |
| ProgramListeners.ParseProgramHeader | src/config/Config.ProgramJsonIo.cpp:725-729 | Reading a whole file: id and name, or nothing, and nothing when the document is cut off |
| ProgramIndex.IndexReadsPrinted | src/config/Config.ProgramJsonIo.cpp:141-258 | A printed index reads back row for row exactly when it has at most ten rows |
| ProgramIndex.TenRows | src/config/Config.ProgramJsonIo.cpp:141-258 | An index of at most ten rows reads back with ids and names, and a longer one not at all |
| ProgramIndex.CanonicalNameIsRecognised | src/config/Config.ProgramIndex.cpp:61-77 | Every id 1..255 is recognised from its canonical file name |
| ProgramIndex.NumberedNames | src/config/Config.ProgramIndex.cpp:61-77 | Of the files named by a number exactly those from 1 to 255 are programs, with or without a leading zero |
| ProgramIndex.PathsAreSkipped | src/config/Config.ProgramIndex.cpp:70-71 | A path in front of the name does not matter |
| ProgramIndex.OtherNames | src/config/Config.ProgramIndex.cpp:64-74 | The index itself and files without the suffix are no programs |
| ProgramIndex.HeaderIdIsPath | src/config/Config.ProgramIndex.cpp:162-176 | A header that was accepted names the id of its file or none, so the comparison behind it never skips a file |
| ProgramIndex.AcceptedExactly | src/config/Config.ProgramIndex.cpp:143-176 | A file is listed exactly when it can be opened and its header parses |
| ProgramIndex.RebuiltIndexAgrees | src/config/Config.ProgramIndex.cpp:52-128 | A check right after a rebuild finds no mismatch exactly when every numeric program file is among the scanned rows |
| ProgramIndex.UnreadableFileNeverAgrees | src/config/Config.ProgramIndex.cpp:52-128 | A directory of one program file that cannot be opened disagrees with the index rebuilt from it |
| ProgramIndex.RebuildSettles | src/config/Config.ProgramIndex.cpp:52-128 | With at most ten program files, all readable, a check right after a rebuild finds no mismatch |
| ProgramIndex.StoredProgramIsListed | src/config/Config.ProgramIndex.cpp:143-187 | A stored program under its canonical name is listed with its id and name |
| ProgramIndex.IndexMismatch | src/config/Config.ProgramIndex.cpp:52-119 | The loops with their early exits report a mismatch exactly when the index does not parse or its ids are not those of the files |
| ProgramIndex.CheckRows | src/config/Config.ProgramIndex.cpp:90-118 | The comparison of two id sets kept as flag arrays |
| ProgramIndex.SortRows | src/config/Config.ProgramIndex.cpp:189-201 | The exchange sort leaves an id-sorted permutation |
| ProgramIndex.RebuildRows | src/config/Config.ProgramIndex.cpp:130-201 | An id-sorted permutation of the first ten acceptable rows in directory order |
| ProgramIndex.EnsureProgramIndex | src/config/Config.ProgramIndex.cpp:52-128 | The index is rewritten exactly when it does not agree with the directory, and the call fails exactly when that write does |
| ProgramIndex.EmitIndexArrayBody | src/config/Config.ProgramJsonIo.cpp:695-707 | The printing loop produces the index document |
| Crc16.CrcIsSerial | src/common/Utils.Core.cpp:21-36 | The byte-wise checksum is the one of the bit-serial shift register |
| Crc16.SingleByteErrorsShow | src/common/Utils.Core.cpp:21-36 | Changing any one byte of a document changes its checksum |
| Crc16.CheckValue | src/common/Utils.Core.cpp:21-36 | The checksum of the digits 1 to 9 is 4B37, the check value of CRC-16/MODBUS |
| Crc16.CrcNext | src/common/Utils.Core.cpp:21-30 | The eight-step loop computes one byte of the checksum |
| Crc16.FeedBytes | src/common/Utils.Core.cpp:32-36 | The byte loop computes the checksum of the buffer |
| Crc16.StreamFile | src/common/Utils.Core.cpp:38-56 | Chunked reading with any read sizes gives the checksum of the bytes read, the whole file unless a read came back empty |
| Crc16.CrcSink.WriteBuffer | src/config/Config.BaseJsonEmit.cpp:247-252 | The sink holds checksum and length of everything printed so far |
| Crc16.CrcSink.Write | src/config/Config.BaseJsonEmit.cpp:242-246 | The same for a single byte |
| Crc16.Crc16Serialized | src/config/Config.BaseJsonEmit.cpp:237-259 | Checksum and length of a document printed in any pieces are those of the whole, hence those of the same document read back in any chunks |
| StreamSinks.SkippingPrint.WriteByte | src/web/internal/WebServerInternal.h:45-54 | The output holds exactly the window of the bytes printed so far |
| StreamSinks.SkippingPrint.WriteBuffer | src/web/internal/WebServerInternal.h:56-67 | The same for a buffer that straddles either end of the window |
| StreamSinks.Fill | src/web/internal/WebServerInternal.h:38-74 | The filler called at an index with some room yields exactly those bytes of the document, however it is printed |
| StreamSinks.Measure | src/web/internal/WebServerInternal.h:162-164 | The announced length is the length of the document |
| StreamSinks.ChunksRebuild | src/web/internal/WebServerInternal.h:157-177 | Any schedule of chunks sends a prefix of the document, and the whole of it exactly when the rooms add up to its length |

## Left out

- Timers of the MQTT client: keep-alive, reconnect back-off and the state changes of `tick`, which only choose when the modelled operations are called.
- MqttFsmClient.Client.ParseOneFrame: does not say which bytes the buffer holds after the error exit, where the firmware moves memory beyond it.
- MqttStream.ReceiveIsChunkingIndependent: excludes malformed lengths, frames over 320 bytes, refused CONNACK and type-14 frames, and bytes dropped for lack of room, after which the firmware resynchronises by chance.
- MqttStream.EndToEnd: excludes ticks that drop bytes, and operations whose packet ends or overruns the receiver; `MqttStream.StagedIsFramed` says which these are.
- AtomicJson.PowerLossSafety: speaks of paths of at most 61 bytes; for longer ones only `AtomicJson.LongPathsFail` says what happens.
- AtomicJson.FSManager.WriteJsonAtomicStream: the document is taken as one sequence of bytes of which the flash keeps a prefix; an encoder that goes on after a short write, on a flash that then takes more, is not modelled.
- UiSessions.TouchesKeepTopFour: two ids touched in the same millisecond have no order; `UiSessions.RunsAreCaches` covers such runs.
- ProgramDocument.EmitProgramBody: prints parser events in place of characters, so commas, braces and escapes are not covered.
- ProgramIndex.EmitIndexArrayBody: prints parser events in place of characters.
- MqttStream.TransmitConserves: a publish is bounded so that its size stays below 2^16, since the firmware's size does not.
- OtaModel.PackageRoundTrip: names of 256 bytes or more, empty names and names with a NUL are left to the branches of the reader, which `OTAHandler.Handler.ProcessUpdateFile` states for every byte sequence.
- OtaModel.NothingLostExactly: speaks of accepted files with short names; what a success under a long name leaves is stated by `OtaModel.WriteAll` and `OtaModel.LongUnpack` only.
- Seeking past the end of an update file is taken to leave the position where it was; deleting the container and restarting afterwards are not modelled.
- The flash is a map from path to content with failing operations; directories, wear levelling and the garbage collection before writes are not modelled.
- `write` of the transport during a send in progress.
- ModemTexts.IpdPayloadExactly: speaks of an open connection with nothing pending and a length of at most five digits.
- Program names kept by the executor for display, its log lines and its status broadcasts.
- Numbers.ReadFixed: reads only numbers printed by the firmware, not exponents or other spellings a person could type.
- Numbers.FixedText: exact hundredths, so the rounding of a float by `Print` and its special values are not captured.
- The character-level JSON tokenizer is not part of this model, and neither is the escaping of strings that it undoes; strings reach the readers as they were printed.
- StreamSinks.ChunksRebuild: the document must not change between the chunks of one response.
- `ForwardCountPrint`, which only counts what passes through it.
- The base configuration reader, whose key buffer is shorter than some printed keys.
- The flash-commit coordinator, the line framing of the modem UART, the IPv4 test and the baud search: small machines that would add only easier members.
- Wi-Fi, DNS, HTTP routes, server-sent events, sensors, interrupts, watchdog feeding and logging: plumbing without a property of its own.
- The browser interface and the rest of the build script.
