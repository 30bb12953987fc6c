# A verified model of the Home Key reader and its controller

An ESP8266 drives a PN532 NFC chip over a serial line and serves one WebSocket; a controller
asks it to run commands, is told of discovered targets, and keeps the Home Key issuers and
endpoints. These Dafny files model the state machines on both ends and prove what holds over
every input, every run and every interleaving. `dafny verify dfyconfig.toml` checks them all.

The C++ and Python code that updates fields in place is modelled by classes and methods with
loops (`Ring`, `SerialLink`, `ReaderFirmware`, `ReaderConnection`, `ReaderManager`,
`WebSocketPn532Transport`, `KeyStore`, `EnrollmentService`, ...). Each method's contract equates
its whole new state with a step of a pure specification, and the theorems are about those
specifications.

| file | models |
|---|---|
| `Words`, `Wrappers` | machine words, the wrapping millisecond clock; option and result types |
| `Ring`, `Frames`, `Collector` | the UART ring; PN532 frames (section 6.2.1 of UM0701-02), their builders and checks; the incremental parser |
| `LocalCommands`, `Dialogue` | the blocking parser and executor, against a serial line and a clock that move as they like; DISCOVER and EXECUTE |
| `AsyncCommands` | the cooperative executor, and its agreement with the blocking one |
| `Reader`, `Firmware` | the reader's state machine, and the firmware's globals and handlers that implement it |
| `ReaderRuns`, `ReaderRetry`, `ReaderTiming`, `ReaderExchange`, `ReaderDiscovery`, `ReaderEffects`, `RfTimeout` | whole runs: one reply per request and how a retry can lose it, replies in time, a whole transceive, discovery; what goes to the chip and to the socket; the RF timeout code |
| `Protocol` | the message format in both languages |
| `Correlation`, `Health`, `Transport`, `Worker`, `TargetEvents` | the controller's threads: request ids, connections and health, the NFC transport, sessions and retries, the queue of presented cards |
| `EndToEnd`, `RoundTrip`, `Cards` | both ends together: every run, requests that come back, a presented card and its worker |
| `Registry` | loading the reader registry and enrolling readers |
| `KeyedLists`, `KeyStore`, `Pairing` | the key store's lists as maps, the stored document, HomeKit pairing and credentials |

## What is assumed

- The chip, the radio and the network answer anything at any time: bytes, results of blocking
  commands and clock readings are parameters, and the clock never goes back. Inside the
  blocking functions the clock moves by 1 ms to `gap` ms between two looks at it. Which bytes
  are there at a look is open, except on a prompt line, where all that were sent are.
- The one rule for runs of the reader is `ReaderRuns.Allowed`: no retry RESUME while a
  transceive is under way. It is weaker than "one command in flight per reader"
  (docs/WEBSOCKET_V2.md:251); `RetryKeepsOneReplyExactly` shows it is needed.
- Thread steps are atomic where the source holds a lock or uses one queue operation. Fewer than
  2^32-1 ids are allocated while a request is live or its reply under way.
- Issuer and endpoint ids are some functions of public keys, HMAC (RFC 2104) is some function,
  and the vendored `to_dict` and `from_dict` invert each other.

## Where the code does not do what one would expect

Each of these is proved, with the exact condition where the code does meet the property.

- The cooperative and the blocking executor differ in the error code on a corrupt frame in the
  ACK's place (`PN532_BAD_ACK` against `PN532_BAD_FRAME`) and on a stream that ends inside an
  oversize extended header, of which the blocking parser reads 9 bytes and the other 7
  (`AsyncMatchesBlocking`).
- The command builders accept 254 and 255 data bytes, for which the length byte wraps
  (`RoundTripLimit`).
- A retry RESUME is not refused while a transceive runs. Once its field-off command is
  acknowledged the reader no longer counts as busy, and a second TRANSCEIVE costs the first its
  reply, unless the running command is overdue already, so that the next pass answers it before
  another card can be presented (`RetryKeepsOneReplyExactly`, `RetryLosesReply`).
- The repository's README.md:245 promises a confirmed removal before rediscovery for successful
  credentials. A START during the wait for that removal ends the wait, and the served card may be
  presented again at once. For a card that was not served the watchdog begins the same wait
  (main.cpp:1048-1050), and neither START nor the watchdog clears the time since when no target
  was seen: with such a time left on record a single sweep may end that wait
  (`RuleHoldsExactly`, `SessionRuleHoldsExactly`; `CardPresentedWithoutRemoval` shows both in one
  run from power-on).
- Above about 3.3 s the RF timeout code saturates (`SaturatesFrom3310ms`).
- A failed EXECUTE leaves an earlier unread response in the transport, and the next read
  returns it (`ResponseOfLastExchange`, `StaleResponse`).
- docs/OPERATIONS.md:64 promises a back-off from 2 to 60 seconds. The time the reader was last
  ready is never cleared, so a minute into an outage the delay falls to 2 s and stays there
  (`WaitsGrowUnlessSettled`, `LongOutageNeverBacksOff`). The count of transient failures
  survives the session too (`FaultsAgainAtOnce`).
- A device credential can be added twice with success if an issuer listed earlier holds an
  endpoint with that key and no HomeKit enrolment (`AddTwice`).
- A reader id may hold white space, and then fewer bytes: `bytes.fromhex` skips it
  (`FiveBytesAreAccepted`).
- `enroll_fleet_reader` called for a reader the document already has forgets that reader's token
  and enables it (`EnrolmentSetsEntry`); its one caller never does so (`RunningEqualsRestarted`).

## Model

| member | source | states |
|---|---|---|
| `Pn532Ring.Ring.Push` | firmware/esp8266-pn532-websocket/src/main.cpp:116-124 | A byte is refused exactly when 2047 are held, and otherwise is appended to the queue; indices stay in range |
| `Pn532Ring.Ring.Pop` | firmware/esp8266-pn532-websocket/src/main.cpp:126-133 | The oldest byte held, or nothing exactly when none is held |
| `Pn532Ring.Ring.Clear` | firmware/esp8266-pn532-websocket/src/main.cpp:111-114 | Nothing is held |
| `Pn532Ring.FirstInFirstOut` | firmware/esp8266-pn532-websocket/src/main.cpp:103-133 | Over every sequence of pushes and pops, what was accepted is what came out followed by what is held, in order, and at most 2047 bytes are held |
| `Pn532Ring.OfferAllKeepsPrefix` | firmware/esp8266-pn532-websocket/src/main.cpp:135-142 | A burst on the line leaves exactly the prefix that fits |
| `Words.SignTestExact` | firmware/esp8266-pn532-websocket/src/main.cpp:742 | The signed test on a wrapped 32-bit difference decides the true order of two instants less than 2^31 ms apart |
| `Words.ElapsedNeverOverstates` | firmware/esp8266-pn532-websocket/src/main.cpp:1120-1121 | An unsigned 32-bit difference never exceeds the true time passed, however often the clock wrapped |
| `Pn532Frames.HuntIsExact` | firmware/esp8266-pn532-websocket/src/main.cpp:688-704 | One step of the automaton: with what it has seen, it stops on a byte exactly if that byte completes the first start code |
| `Pn532Frames.HuntFindsFirstStart` | firmware/esp8266-pn532-websocket/src/main.cpp:688-704 | Over any stream the automaton stops right behind the first 00 00 FF, and never exactly if there is none |
| `Pn532Frames.ParseFindsFirstStart` | firmware/esp8266-pn532-websocket/src/main.cpp:235-254 | The frame found is the one at the first start code |
| `Pn532Frames.DeclaredLengthDecides` | firmware/esp8266-pn532-websocket/src/main.cpp:256-299 | The first frame is oversize exactly if its header declares more than 1100 bytes, and found exactly if it declares no more and they are all there |
| `Pn532Frames.ValidateNormalFrame` | firmware/esp8266-pn532-websocket/src/main.cpp:208-222 | The in-place check accepts exactly the frames whose two checksums and postamble hold, and reads only below the given length |
| `Pn532Frames.WriteCommandFrame` | firmware/esp8266-pn532-websocket/src/main.cpp:311-328 | The frame put into the static buffer, byte for byte, for up to 255 data bytes |
| `Pn532Frames.BuiltFrameShape` | firmware/esp8266-pn532-websocket/src/main.cpp:759-776 | A built frame of up to 253 data bytes declares its own length, passes the checksum test and holds code and data in place |
| `Pn532Frames.ValidExactlyIfFramed` | firmware/esp8266-pn532-websocket/src/main.cpp:208-222 | A frame as long as it declares passes the checks if and only if it is the very frame built around the bytes it carries: every wrong checksum or postamble is refused |
| `Pn532Frames.ResponseExactlyIfBuilt` | firmware/esp8266-pn532-websocket/src/main.cpp:836-864 | A frame is taken for a response to a command with some data if and only if it is the frame that the chip builds for that, of at most 253 bytes |
| `Pn532Frames.BuildParseRoundTrip` | firmware/esp8266-pn532-websocket/src/main.cpp:208-254 | A response built for a command, behind any noise and before any further bytes, is found where it is, leaves exactly what follows, and gives back the data |
| `Pn532Frames.CommandFrameIsFound` | firmware/esp8266-pn532-websocket/src/main.cpp:311-328 | The same for the reader's own command frames, read by the chip |
| `Pn532Frames.RoundTripLimit` | firmware/esp8266-pn532-websocket/src/main.cpp:314-319 | False beyond 253 data bytes: the round trip holds if and only if there are at most 253 |
| `Pn532Frames.FoundIsWhole` | firmware/esp8266-pn532-websocket/src/main.cpp:262-299 | A found frame is a contiguous stretch of the stream, its rest follows directly, its header declares its length, and it has 6 to 1100 bytes |
| `Pn532Frames.ClassesDisjoint` | firmware/esp8266-pn532-websocket/src/main.cpp:208-222 | A delivered frame is one of ACK, extended or normal; none that passes the checksum test is taken for another class, and the test stays within the bytes collected |
| `FrameCollector.CollectorRefinesParse` | firmware/esp8266-pn532-websocket/src/main.cpp:687-747 | From a fresh collector every stream gives the reference parser's frame, remainder and oversize verdict |
| `FrameCollector.FeedAllSplits` | firmware/esp8266-pn532-websocket/src/main.cpp:687-747 | Suspending the collector between any two bytes changes nothing |
| `FrameCollector.ChunkingIsInvisible` | firmware/esp8266-pn532-websocket/src/main.cpp:687-747 | However a stream is cut into chunks, the collector delivers the frame and remainder of the uncut stream |
| `FrameCollector.WholeFramesAreBounded` | firmware/esp8266-pn532-websocket/src/main.cpp:706-739 | What the collector calls whole has the length its header declares and never passes the buffer |
| `LocalCommands.SerialLink.ReadByteUntil` | firmware/esp8266-pn532-websocket/src/main.cpp:175-187 | A byte before the deadline, or no byte and the deadline truly reached |
| `LocalCommands.SerialLink.ReadExact` | firmware/esp8266-pn532-websocket/src/main.cpp:189-206 | Appends the next bytes of the stream; no announced count writes past the 1100-byte buffer |
| `LocalCommands.SerialLink.ReadFrame` | firmware/esp8266-pn532-websocket/src/main.cpp:224-300 | For every timing: the frame returned is the stream's own and the stream is left just behind it; a refusal is the stream's fault or the deadline has passed, and on a prompt line with few enough bytes always the stream's fault; the deadline is overstayed by at most one look at the clock |
| `LocalCommands.SerialLink.ExecuteLocal` | firmware/esp8266-pn532-websocket/src/main.cpp:302-389 | The command frame is sent; the result is what the bytes heard determine, or a time-out, and a time-out only once the deadline then in force has passed, and never on a prompt line with few enough bytes unless the bytes hold no whole answer; what is heard is the reply behind at most bytes still on the line; the time is bounded; a waiting flag that was down stays down |
| `LocalCommands.ResponseTests` | firmware/esp8266-pn532-websocket/src/main.cpp:364-387 | On a frame of the blocking parser the executor's tests come to exactly the test for a normal response to this command |
| `LocalCommands.BodyDecides` | firmware/esp8266-pn532-websocket/src/main.cpp:256-299 | What has been read of a frame decides the verdict on the whole stream |
| `LocalCommands.SerialLink.Sweep` | firmware/esp8266-pn532-websocket/src/main.cpp:505-586 | The seven commands of a sweep in order, at most 4050 ms plus scheduling, the last five only without a target; each half's result is what the bytes heard for its commands determine, or a time-out after at least 250 ms |
| `LocalCommands.SerialLink.HandleDiscover` | firmware/esp8266-pn532-websocket/src/main.cpp:491-599 | One reply under the request's id within the sweep's budget: the target data or error that the bytes heard for the seven commands determine, or a time-out after at least 250 ms, and on a prompt line with few enough bytes never the latter; "no target" means all seven commands went out, a target that nothing followed the poll |
| `LocalCommands.SerialLink.HandleExecute` | firmware/esp8266-pn532-websocket/src/main.cpp:418-483 | One reply under the request's id: acknowledgement and response frame, or the error, that the chip's bytes determine, or a time-out once the deadline then in force has passed, and on a prompt line with few enough bytes never the latter; busy and empty requests write nothing; the time is bounded |
| `ChipDialogue.SweepSends` | firmware/esp8266-pn532-websocket/src/main.cpp:505-586 | The seven commands of a sweep, byte for byte |
| `ChipDialogue.SweepTakes` | firmware/esp8266-pn532-websocket/src/main.cpp:302-389 | The budget of a sweep is what its commands may wait, and no command waits less than 50 ms |
| `ChipDialogue.AnswerIsTaken` | firmware/esp8266-pn532-websocket/src/main.cpp:351-389 | From an acknowledgement and the chip's answer, behind any noise, the blocking executor takes exactly the data, and nothing from another command's answer |
| `ChipDialogue.DiscoverFindsCard` | firmware/esp8266-pn532-websocket/src/main.cpp:491-599 | DISCOVER end to end: when the chip lists a card with a proper UID the controller reads exactly that card from the reply |
| `ChipDialogue.DiscoverFindsNone` | firmware/esp8266-pn532-websocket/src/main.cpp:491-599 | When it lists none and answers all seven commands the controller reads that there is none |
| `ChipDialogue.ExecuteForwards` | firmware/esp8266-pn532-websocket/src/main.cpp:418-483 | EXECUTE gives back the acknowledgement and the whole next frame, whatever it is, of up to 1094 bytes, and refuses a longer one as too large |
| `AsyncCommands.PollKeepsVerdict` | firmware/esp8266-pn532-websocket/src/main.cpp:792-867 | A poll in time decides nothing that the bytes do not, and forgets none of them |
| `AsyncCommands.SplitInvariance` | firmware/esp8266-pn532-websocket/src/main.cpp:792-867 | However the chip's bytes are spread over the passes (burst, single bytes, a cut inside the ACK), the command ends with the result those bytes determine, and still waits only if they hold no whole answer |
| `AsyncCommands.AsyncMatchesBlocking` | firmware/esp8266-pn532-websocket/src/main.cpp:302-389 | The cooperative executor gives the blocking executor's result if and only if the stream is not one of `Diverges` (a corrupt first frame, a truncated oversize header), and there only the error code differs |
| `AsyncCommands.CorruptFrameDiverges` | firmware/esp8266-pn532-websocket/src/main.cpp:807-833 | A stream of the first kind: PN532_BAD_ACK against PN532_BAD_FRAME |
| `AsyncCommands.CutHeaderDiverges` | firmware/esp8266-pn532-websocket/src/main.cpp:706-733 | A stream of the second kind: PN532_FRAME_TOO_LARGE against PN532_TIMEOUT |
| `AsyncCommands.CutAnswerDiverges` | firmware/esp8266-pn532-websocket/src/main.cpp:706-733 | The same behind the acknowledgement |
| `AsyncCommands.AsyncRefinesBlocking` | firmware/esp8266-pn532-websocket/src/main.cpp:749-867 | Over every split in time outside `Diverges` the polled command ends as the blocking executor would |
| `AsyncCommands.ExtendedAnswersRejected` | firmware/esp8266-pn532-websocket/src/main.cpp:835-857 | Both executors reject every extended frame as an answer |
| `AsyncCommands.ResponseSurvivesAnySplit` | firmware/esp8266-pn532-websocket/src/main.cpp:687-867 | The ACK and the response the chip builds for some data, behind noise and spread over the passes in any way, end the command with exactly that data |
| `RfTimeout.FindTimeoutCode` | firmware/esp8266-pn532-websocket/src/main.cpp:953-965 | The loop yields the least covering code in 32 bits without overflow |
| `RfTimeout.TimeoutCodeIsLeast` | firmware/esp8266-pn532-websocket/src/main.cpp:953-965 | The least n in 1..16 with floor(1000 T / 2^(n-1)) <= 100, or 16 if there is none |
| `RfTimeout.TimeoutCodeMonotone` | firmware/esp8266-pn532-websocket/src/main.cpp:953-965 | A longer timeout never gets a smaller code |
| `RfTimeout.TimeoutCodeFits` | firmware/esp8266-pn532-websocket/src/main.cpp:953-965 | Unless saturated 1000 T < 101 * 2^(n-1), and n - 1 would not do |
| `RfTimeout.SaturatesFrom3310ms` | firmware/esp8266-pn532-websocket/src/main.cpp:953-965 | The code covers the timeout if and only if it is at most 3309 ms |
| `Protocol.EncodeDecode` | backend/homekey_bridge/protocol.py:56-92 | decode(encode(m)) = m for every message that encodes |
| `Protocol.EncodesTo` | backend/homekey_bridge/protocol.py:56-70 | A message encodes exactly if its fields are in range, and to these bytes: magic, version, type, id, timeout and length, most significant byte first, and the payload |
| `Protocol.ErrorsAgree` | backend/homekey_bridge/protocol.py:32-40 | The controller takes every error byte of the firmware for the error that was meant |
| `Protocol.DecodeEncode` | backend/homekey_bridge/protocol.py:56-92 | encode(decode(b)) = b for every accepted b |
| `Protocol.DecodersAgree` | firmware/esp8266-pn532-websocket/include/protocol.h:77-101 | Firmware and controller accept the same bytes and read the same fields, except that the controller also refuses unknown types |
| `Protocol.OneFormat` | backend/homekey_bridge/protocol.py:56-70 | What the controller writes the firmware reads with every field intact |
| `Protocol.ReaderWritesDecode` | firmware/esp8266-pn532-websocket/src/main.cpp:391-409 | What the firmware writes both decoders read with every field intact |
| `Protocol.WriteProtocolMessage` | firmware/esp8266-pn532-websocket/src/main.cpp:391-409 | The firmware's buffer holds exactly the message's encoding |
| `Protocol.WriteU32` | firmware/esp8266-pn532-websocket/include/protocol.h:70-75 | Four bytes in big-endian order, and nothing else of the buffer |
| `Protocol.U32RoundTrip` | firmware/esp8266-pn532-websocket/include/protocol.h:58-75 | readU32 undoes writeU32 |
| `Protocol.U16RoundTrip` | firmware/esp8266-pn532-websocket/include/protocol.h:54-68 | readU16 undoes writeU16 |
| `ReaderMachine.KeepBits732IsMask` | firmware/esp8266-pn532-websocket/src/main.cpp:935-940 | The arithmetic form of the register change is the bit mask 0x8C |
| `ReaderMachine.WithBit6IsMask` | firmware/esp8266-pn532-websocket/src/main.cpp:935-940 | The arithmetic form of the register change is (v & 0xBF) | 0x40 |
| `Firmware.ReaderFirmware.DrainUart` | firmware/esp8266-pn532-websocket/src/main.cpp:135-142 | Bytes go into the ring exactly while an answer is awaited |
| `Firmware.ReaderFirmware.CancelAsync` | firmware/esp8266-pn532-websocket/src/main.cpp:151-159 | The whole new state: command, step, payload and waiting flag reset, all else kept |
| `Firmware.ReaderFirmware.CollectFrame` | firmware/esp8266-pn532-websocket/src/main.cpp:687-747 | The in-place loop consumes exactly the bytes and reaches exactly the verdict of the collector |
| `Firmware.ReaderFirmware.BeginCommand` | firmware/esp8266-pn532-websocket/src/main.cpp:749-790 | One command frame on the line, an empty ring and a fresh command record, or nothing at all if one is active |
| `Firmware.ReaderFirmware.PollCommand` | firmware/esp8266-pn532-websocket/src/main.cpp:792-867 | The in-place poll makes the specified step: data in the buffer, error, ring left, and the abort ACK on the line of which `PassWrites` says when it goes out |
| `Firmware.ReaderFirmware.HandleTransceive` | firmware/esp8266-pn532-websocket/src/main.cpp:878-911 | The whole new state, the messages and the bytes written are those of the state machine |
| `Firmware.ReaderFirmware.AdvanceStep` | firmware/esp8266-pn532-websocket/src/main.cpp:930-1007 | The same for what a completed command leads to |
| `Firmware.ReaderFirmware.UpdateTransceive` | firmware/esp8266-pn532-websocket/src/main.cpp:913-1008 | The same for one update of the running transceive |
| `Firmware.ReaderFirmware.HandleStart` | firmware/esp8266-pn532-websocket/src/main.cpp:601-635 | The same for START_DISCOVERY |
| `Firmware.ReaderFirmware.HandleResume` | firmware/esp8266-pn532-websocket/src/main.cpp:637-674 | The same for RESUME_DISCOVERY |
| `Firmware.ReaderFirmware.NoteFailure` | firmware/esp8266-pn532-websocket/src/main.cpp:1010-1033 | The same for one discovery failure |
| `Firmware.ReaderFirmware.RunDiscovery` | firmware/esp8266-pn532-websocket/src/main.cpp:1035-1148 | The same for one round of autonomous discovery, whose announcements `PassPresents` and `ThirdFailureIsReported` state outright |
| `Firmware.ReaderFirmware.RunPass` | firmware/esp8266-pn532-websocket/src/main.cpp:1627-1652 | The same for one pass of the loop |
| `Firmware.ReaderFirmware.HandleBinaryMessage` | firmware/esp8266-pn532-websocket/src/main.cpp:1191-1236 | The same for every message, decodable or not |
| `Firmware.ReaderFirmware.OnConnected` | firmware/esp8266-pn532-websocket/src/main.cpp:1279-1286 | The same for a new connection |
| `Firmware.ReaderFirmware.OnDisconnected` | firmware/esp8266-pn532-websocket/src/main.cpp:1287-1314 | The same for a lost connection |
| `Firmware.ReaderFirmware.OnUpdateStarted` | firmware/esp8266-pn532-websocket/src/main.cpp:1402-1408 | The same for the start of an update |
| `Firmware.ReaderFirmware.OnUpdateFailed` | firmware/esp8266-pn532-websocket/src/main.cpp:1412-1414 | The same for a failed update |
| `Firmware.ReaderFirmware.HandleEvent` | firmware/esp8266-pn532-websocket/src/main.cpp:1191-1314 | What the socket sees of any event: a message is answered once, at once and under its own id, or taken on; a pass answers the running transceive exactly if it ends it; the invariant is kept, and what was open or taken on has ended now or is still open |
| `Firmware.ReaderFirmware.Operate` | firmware/esp8266-pn532-websocket/src/main.cpp:1627-1652 | Whatever happens to the sketch, in whatever order, its variables stand for the state that the run of the machine reaches, and every transceive it took on has been ended once, in order, or is still running |
| `Firmware.ReaderFirmware.ResetChip` | firmware/esp8266-pn532-websocket/src/main.cpp:161-173 | The same for the hardware reset |
| `ReaderRuns.TakeKeepsInv` | firmware/esp8266-pn532-websocket/src/main.cpp:749-790 | Every allowed event keeps the invariant: waiting flag up exactly when a step is not IDLE, command active in that case, pending and waiting for removal each imply enabled and exclude one another, enabled implies fewer than 3 failures in a row |
| `ReaderRuns.PowerOnRunKeepsInv` | firmware/esp8266-pn532-websocket/src/main.cpp:1627-1652 | The invariant holds after every allowed run from power-on |
| `ReaderRuns.HandlerReplies` | firmware/esp8266-pn532-websocket/src/main.cpp:1191-1236 | Every message is answered at once, once and under its own id, but for an accepted TRANSCEIVE (answered later) and BUTTON_RESULT; undecodable bytes are answered under id 0 |
| `ReaderRuns.PassReplies` | firmware/esp8266-pn532-websocket/src/main.cpp:913-1008 | A pass answers the running transceive exactly when it ends it |
| `ReaderRuns.ExactlyOneReply` | firmware/esp8266-pn532-websocket/src/main.cpp:869-1008 | Over every allowed run the accepted transceives end one by one in order, each by one reply under its id or by a cancelling event, and at most the last still runs |
| `ReaderRuns.PowerOnExactlyOneReply` | firmware/esp8266-pn532-websocket/src/main.cpp:869-1008 | From power-on, the endings are a prefix of the acceptances that is short by at most one |
| `ReaderRuns.StepsAlwaysBegin` | firmware/esp8266-pn532-websocket/src/main.cpp:941-950 | The branches for a step that cannot begin are unreachable: no pass reports a transceive as busy |
| `ReaderRetry.RetryKeepsInvExactly` | firmware/esp8266-pn532-websocket/src/main.cpp:637-663 | Without the rule: a retry RESUME keeps the invariant if and only if no transceive is under way, discovery is off or the field-off command is not acknowledged |
| `ReaderRetry.RetryKeepsOneReplyExactly` | firmware/esp8266-pn532-websocket/src/main.cpp:637-674 | Over every continuation in the order of time from the RESUME on, with passes at most d ms apart: exactly one reply per request survives if and only if no transceive is under way, discovery is off, the field-off command is not acknowledged, or the running command is overdue at the RESUME and no card stays pending behind a field-off command that fails |
| `ReaderRetry.RetryLosesReply` | firmware/esp8266-pn532-websocket/src/main.cpp:749-757 | A retry RESUME, a card and a second TRANSCEIVE before the running command's deadline: the second runs into the command still active and is answered as busy, the first never |
| `ReaderRetry.OrphanTimesOut` | firmware/esp8266-pn532-websocket/src/main.cpp:792-803 | If no second TRANSCEIVE comes, the pass that finds the deadline expired still answers the first with PN532_TIMEOUT |
| `ReaderTiming.AcceptedIsRunning` | firmware/esp8266-pn532-websocket/src/main.cpp:878-911 | An accepted TRANSCEIVE starts the timed run |
| `ReaderTiming.StillRunningIsRunning` | firmware/esp8266-pn532-websocket/src/main.cpp:785-830 | The invariant on step, phase and deadline at every point of the run |
| `ReaderTiming.AnsweredInTime` | firmware/esp8266-pn532-websocket/src/main.cpp:785-830 | With passes at most d apart the pass that ends a transceive replies no later than T + 2050 + 8 d ms after its acceptance, and it runs only before then |
| `ReaderTiming.TransceiveBeatsController` | backend/homekey_bridge/server.py:160-166 | For every timeout that bound lies below what the controller waits if d is at most 181 ms, and above it from 182 ms on for timeouts of 1500 ms or more |
| `ReaderTiming.BlockingHandlersBeatController` | backend/homekey_bridge/server.py:160-166 | The time bounds of DISCOVER and EXECUTE lie below what the controller waits for them if two looks at the clock are at most 67 ms apart |
| `ReaderExchange.FetchAdvances` | firmware/esp8266-pn532-websocket/src/main.cpp:913-1008 | Over the events of one command's stretch of a run the reader does what serving the command does, and the pass that finds the answer whole advances the transceive with its data |
| `ReaderExchange.BytesDecideReply` | firmware/esp8266-pn532-websocket/src/main.cpp:792-1008 | The pass that ends a command in time answers what the chip's bytes alone determine: their error, PN532_BAD_FRAME for an answer of no use, the data, or nothing yet while the transceive goes on |
| `ReaderExchange.TransceiveRoundTrip` | firmware/esp8266-pn532-websocket/src/main.cpp:878-1008 | Over every run in which the chip answers the four commands in time, with any messages in between that do not cancel it: the last pass sends one RESPONSE under the request's id with exactly the chip's answer, after exactly four frames: register read, masked registers, timeout code, the request's payload |
| `ReaderExchange.EveryTransceiveCanSucceed` | firmware/esp8266-pn532-websocket/src/main.cpp:878-1008 | For every accepted request, register values and response of 1 to 253 bytes there is such a run |
| `ReaderEffects.PassWrites` | firmware/esp8266-pn532-websocket/src/main.cpp:801-822 | Over every pass: the ACK that aborts a command inside the chip is written if and only if the pass answers PN532_TIMEOUT or PN532_FRAME_TOO_LARGE, the next step's command if and only if the transceive moves on, and nothing otherwise |
| `ReaderEffects.AnswerSays` | firmware/esp8266-pn532-websocket/src/main.cpp:1191-1236 | Every message but an accepted TRANSCEIVE and a BUTTON_RESULT is answered first of all with RESPONSE and what it asked for if nothing is wrong with it, and otherwise with ERROR_RESPONSE and the code that says what is |
| `ReaderEffects.GarbageIsRefused` | firmware/esp8266-pn532-websocket/src/main.cpp:1191-1196 | Bytes that are no message are answered with BAD_MESSAGE and change nothing |
| `ReaderEffects.PassPresents` | firmware/esp8266-pn532-websocket/src/main.cpp:1091-1112 | A pass presents a card exactly if its sweep sees one that is neither pending nor waited for; then it sends one TARGET_EVENT under the next id with the chip's answer behind a 1 |
| `ReaderEffects.TargetIdsAreConsecutive` | firmware/esp8266-pn532-websocket/src/main.cpp:1102-1109 | Over every run the TARGET_EVENTs carry consecutive ids |
| `ReaderEffects.StatusIdsAreConsecutive` | firmware/esp8266-pn532-websocket/src/main.cpp:1026-1032 | So do the READER_STATUS messages |
| `ReaderEffects.ThirdFailureIsReported` | firmware/esp8266-pn532-websocket/src/main.cpp:1010-1033 | Over every run READER_STATUS FAILED comes exactly with the third sweep in a row that fails, with its error and the count; that failure, a RESET and a lost connection are all that turn discovery off, and an accepted START all that turns it on |
| `ReaderEffects.OffUntilStart` | firmware/esp8266-pn532-websocket/src/main.cpp:1035-1040 | Once discovery is off no card is presented before a START is accepted |
| `ReaderEffects.OfflineUntilConnected` | firmware/esp8266-pn532-websocket/src/main.cpp:1035-1040 | From power-on no card is presented before the reader is connected |
| `ReaderEffects.ConnectionTellsHistory` | firmware/esp8266-pn532-websocket/src/main.cpp:1279-1314 | Over every run the reader is connected, and writing an update, exactly if the last event about it says so; and during an update its passes do nothing |
| `ReaderEffects.EventPaces` | firmware/esp8266-pn532-websocket/src/main.cpp:1010-1148 | When the next sweep is due after any event: 0, 40, 100 or 500 ms later |
| `ReaderEffects.NoSweepBeforeDue` | firmware/esp8266-pn532-websocket/src/main.cpp:1052-1054 | Over every run no sweep comes before it is due, unless a START or RESUME sets another instant |
| `ReaderEffects.SweepsWhenDue` | firmware/esp8266-pn532-websocket/src/main.cpp:1035-1054 | When it is due the next pass sweeps, unless a transceive runs or a card is pending |
| `ReaderEffects.WatchdogIsExact` | firmware/esp8266-pn532-websocket/src/main.cpp:1042-1053 | A pending card is given up by exactly the passes that come 15 s or more after it was presented |
| `ReaderDiscovery.TakeEffect` | firmware/esp8266-pn532-websocket/src/main.cpp:1035-1148 | Every event but an accepted START or RESUME changes discovery only as the target's presence in that pass says, and presents a card only when none is pending or waited for |
| `ReaderDiscovery.NoRepeatedPresentation` | firmware/esp8266-pn532-websocket/src/main.cpp:1090-1127 | From a card pending or waited for with no start of absence on record, over every run and across clock wraps and the zero sentinel, a card is presented only after sweeps at least 750 ms apart saw none and none was seen in between |
| `ReaderDiscovery.ResumeStartsTheWait` | firmware/esp8266-pn532-websocket/src/main.cpp:664-670 | An accepted RESUME that is no retry leads to such a wait |
| `ReaderDiscovery.NoRepeatAfterResume` | firmware/esp8266-pn532-websocket/src/main.cpp:664-670 | So the rule holds for every session left to itself after such a RESUME |
| `ReaderDiscovery.RuleHoldsExactly` | firmware/esp8266-pn532-websocket/src/main.cpp:1042-1127 | For a card that is pending, so also when the watchdog begins the wait, the rule holds over every continuation if and only if no start of absence is on record |
| `ReaderDiscovery.StaleRecordPresentsAtOnce` | firmware/esp8266-pn532-websocket/src/main.cpp:1117-1127 | With one on record the watchdog's own sweep ends the wait and the next sweep may present the card again |
| `ReaderDiscovery.SessionRuleHoldsExactly` | firmware/esp8266-pn532-websocket/src/main.cpp:601-635 | Over every continuation of an accepted START a card is presented again only after it had been away, if and only if the START came with no start of absence on record |
| `ReaderDiscovery.CardPresentedWithoutRemoval` | firmware/esp8266-pn532-websocket/src/main.cpp:1048-1127 | One run from power-on with both failures: a START during the wait for a served card, which is presented again; then a card not served, the watchdog, one sweep without the card, and 40 ms later a TARGET_EVENT; neither presentation follows sweeps 750 ms apart that missed the card |
| `ReaderDiscovery.OneEventPerPresentation` | firmware/esp8266-pn532-websocket/src/main.cpp:1035-1053 | After a TARGET_EVENT another follows only after a START, an accepted RESUME or a pass at least 15 s later |
| `Correlation.StepKeepsInv` | backend/homekey_bridge/server.py:133-213 | Every step of every thread keeps the pending table, the queues and the callers consistent |
| `Correlation.EveryRunKeepsInv` | backend/homekey_bridge/server.py:133-259 | So does every interleaving |
| `Correlation.OwnReplyOnly` | backend/homekey_bridge/server.py:139-213 | In every interleaving a caller that gets a message gets the reply to its own request under its own id, which is never 0; no put finds a queue full; ids lie in 1..2^32-1 |
| `Correlation.LateReplyReachesNobody` | backend/homekey_bridge/server.py:203-213 | A reply after its caller has returned changes neither table nor queues |
| `Correlation.ReplyReachesItsCaller` | backend/homekey_bridge/server.py:203-213 | A reply while its caller waits is put where that caller and no other gets it, and the id is released |
| `Correlation.EndReleasesWaiters` | backend/homekey_bridge/server.py:247-259 | Over every interleaving after the socket has ended in which all queues found are failed, every caller that was waiting has returned or returns when it next looks |
| `Correlation.NextId` | backend/homekey_bridge/server.py:133-137 | Ids run from 1 to 2^32-1 and start again |
| `EndToEnd.ReaderMeetsAssumptions` | backend/homekey_bridge/server.py:133-213 | Over every run of controller threads, socket and reader together, from a new connection to a reader in any state and with passes, deferred replies, lost connections and updates, the steps in the table are steps that the correlation theorems allow: the reader answers a request at most once and under its own id |
| `EndToEnd.EveryCallerGetsItsReply` | backend/homekey_bridge/server.py:139-213 | So over every such run a caller gets only the reader's reply to its own request, and no queue is found full |
| `RoundTrip.AnswerComesBack` | backend/homekey_bridge/server.py:139-213 | Whenever nothing else is on the socket, a request that the reader answers at once is sent, served, answered and received by its caller |
| `RoundTrip.TransceiveComesBack` | firmware/esp8266-pn532-websocket/src/main.cpp:878-1008 | So is every accepted TRANSCEIVE, over whatever passes in which the chip answers its four commands in time: it is running until the last of them, that pass sends the chip's response under its id, and its caller gets that reply |
| `RoundTrip.EveryTransceiveCanComeBack` | backend/homekey_bridge/server.py:139-213 | From power-on and a new connection there is such a run for every payload, timeout and response |
| `Cards.PresentedCardIsRead` | backend/homekey_controller/readers.py:415-438 | What the reader presents the worker can read: one TARGET_EVENT, and if the chip listed a card with a UID of 4, 7 or 10 bytes, the worker has a target with exactly the parameters listed |
| `Cards.RoundReleasesCard` | backend/homekey_controller/readers.py:365-375 | A presented card is released if and only if the round's RESUME reaches the reader and is answered with RESPONSE, and then waits for removal exactly if the transaction completed; so it is released when the worker has its answer, still pending when the worker is refused, and a card the worker was given that stays pending ends the session unless the connection was gone |
| `Cards.LeftToTheWatchdog` | firmware/esp8266-pn532-websocket/src/main.cpp:1042-1053 | Otherwise nothing more is presented until a START, another RESUME or the watchdog's 15 s |
| `Cards.DroppedCardIsLeft` | backend/homekey_bridge/server.py:215-245 | So it is with a card whose event is dropped: none of the worker's RESUMEs is for it |
| `Correlation.ReaderConnection.AllocateRequestId` | backend/homekey_bridge/server.py:133-137 | The in-place counter makes the specified step |
| `Correlation.ReaderConnection.InsertQueue` | backend/homekey_bridge/server.py:147-150 | So does the insertion of a caller's queue |
| `Correlation.ReaderConnection.GiveUp` | backend/homekey_bridge/server.py:167-177 | So does the clean-up after a time-out |
| `Correlation.ReaderConnection.LookUp` | backend/homekey_bridge/server.py:203-206 | So does the lookup under the lock |
| `Correlation.ReaderConnection.PutNoWait` | backend/homekey_bridge/server.py:207-213 | So does the put, refused exactly when the queue holds a message |
| `Correlation.ReaderConnection.GetAndReturn` | backend/homekey_bridge/server.py:164-177 | So does the get with the clean-up behind it |
| `ReaderHealth.TakeKeepsInv` | backend/homekey_bridge/server.py:301-387 | Every event keeps health in agreement with the connections, and raises exactly if it marks a reader that is not registered |
| `ReaderHealth.TableTellsHistory` | backend/homekey_bridge/server.py:301-334 | The table lists exactly the sockets that are the latest of their reader and not reported closed |
| `ReaderHealth.HealthTellsHistory` | backend/homekey_bridge/server.py:301-387 | After every interleaving: connected exactly when such a socket exists, offline exactly when not connected, online exactly when ready, and health keys equal registry keys |
| `ReaderHealth.LastTouchDecides` | backend/homekey_bridge/server.py:301-387 | After every interleaving the last event about a reader decides what its health reports: state, reason, readiness and retry time |
| `ReaderHealth.CountersTellHistory` | backend/homekey_bridge/server.py:301-387 | The firmware is that of the last socket, the failure count that of the last fault since the reader was last ready, and a reader that nothing was ever about is reported as never connected |
| `ReaderHealth.StaleUnregisterIsIgnored` | backend/homekey_bridge/server.py:322-334 | A replaced connection's late unregister changes nothing |
| `ReaderHealth.ReaderManager.Register` | backend/homekey_bridge/server.py:301-320 | The new connection is listed, connected and not ready; a reader that is not registered raises; health and connections go on agreeing, and the whole new state is stated |
| `ReaderHealth.ReaderManager.Unregister` | backend/homekey_bridge/server.py:322-334 | Only the end of the listed connection takes the reader off line; any other changes nothing; health and connections go on agreeing, and the whole new state is stated |
| `ReaderHealth.ReaderManager.MarkReady` | backend/homekey_bridge/server.py:341-351 | On line exactly if connected; an unknown reader raises; health and connections go on agreeing, and the whole new state is stated |
| `ReaderHealth.ReaderManager.MarkInitializing` | backend/homekey_bridge/server.py:353-368 | Initializing exactly if connected, and not ready; health and connections go on agreeing, and the whole new state is stated |
| `ReaderHealth.ReaderManager.MarkFault` | backend/homekey_bridge/server.py:370-387 | Degraded exactly if connected, and not ready; health and connections go on agreeing, and the whole new state is stated |
| `ReaderHealth.ReaderManager.AddRecord` | backend/homekey_bridge/server.py:272-281 | Afterwards registered; a reader already known keeps its health; health and connections go on agreeing, and the whole new state is stated |
| `Transport.WebSocketPn532Transport.WriteFrame` | backend/homekey_bridge/transport.py:47-49 | Only the pending frame changes |
| `Transport.WebSocketPn532Transport.ReadFrame` | backend/homekey_bridge/transport.py:51-72 | The whole new state and outcome of a read |
| `Transport.SentOnce` | backend/homekey_bridge/transport.py:47-62 | A frame goes to the reader exactly when the call after its write is a read: at most once, and only the last of several writes |
| `Transport.ResponseOfLastExchange` | backend/homekey_bridge/transport.py:51-72 | Over every sequence of calls a response comes whole from the last exchange that succeeded; it answers the last frame written if and only if no exchange failed since |
| `Transport.StaleResponse` | backend/homekey_bridge/transport.py:51-72 | The failing case is real: after a failed exchange the unread response of an earlier command is handed out |
| `Transport.ExchangeEndToEnd` | backend/homekey_bridge/transport.py:51-72 | For every frame of up to 1100 bytes and every reply that the reader's EXECUTE handler may give: write, read, read gives exactly the ACK and then the whole frame that the reader's parser accepts, or, for an empty frame, an error or a time-out, a failure that leaves nothing new |
| `ReaderWorker.DecodesTargetsOnly` | backend/homekey_controller/readers.py:415-438 | A payload decodes to a target if and only if it is a target list whose first entry has a UID of 4, 7 or 10 bytes, and to that entry's parameters |
| `ReaderWorker.Worker.PollOnce` | backend/homekey_controller/readers.py:281-375 | The in-place round, with no connection, a fault, no event or an event, and with its `finally`, makes the RESUME of the specification and comes to the outcome of which `SessionEnds` says what it means |
| `ReaderWorker.OneResumePerTarget` | backend/homekey_controller/readers.py:365-375 | Over every sequence of rounds the RESUMEs go, one each and in order, to exactly the rounds that had a target and a connection at their end, and each asks for a retry exactly if its transaction did not complete |
| `ReaderWorker.Worker.ReaderSession` | backend/homekey_controller/readers.py:475-496 | The in-place loop of a session makes the RESUMEs of exactly the rounds it polls, keeps the count of failures over all sessions, and ends with the first round that raises or faults, or when told to stop |
| `ReaderWorker.SessionEnds` | backend/homekey_controller/readers.py:475-496 | How far a session gets and why it ends: with `Raise` exactly at a round with no connection, a fault, an undecodable payload, a RESUME refused or unanswered, or an exception that is not transient; with a hardware fault exactly at the third transient one; the count falls to 0 at good rounds alone |
| `ReaderWorker.NeverPastBreak` | backend/homekey_controller/readers.py:475-481 | A session never polls past a round that cannot go on |
| `ReaderWorker.FaultsOnThird` | backend/homekey_controller/readers.py:476-490 | A poll ends its session with a hardware fault if and only if it is at least the third transient failure since the last good poll, whatever sessions lie between |
| `ReaderWorker.FaultsAgainAtOnce` | backend/homekey_controller/readers.py:476-490 | The count outlives the session: the next session ends at its first transient failure |
| `ReaderWorker.WaitsAreBounded` | backend/homekey_controller/readers.py:516-526 | Every retry delay lies in 2..60 s |
| `ReaderWorker.WaitIsByHistory` | backend/homekey_controller/readers.py:515-526 | The wait after every failure, from the events alone: 2, 4, 8, 16, 32 and then 60 s, by the failures since the last one that came a minute or more after the reader was ready |
| `ReaderWorker.WaitsGrowUnlessSettled` | backend/homekey_controller/readers.py:515-526 | Delays grow to the maximum if and only if the reader was last ready less than a minute before |
| `ReaderWorker.LongOutageNeverBacksOff` | backend/homekey_controller/readers.py:516-526 | From a minute after the reader was last ready, every further failure of the outage waits 2 s |
| `ReaderWorker.Worker.NotePoll` | backend/homekey_controller/readers.py:473-490 | The in-place count makes the specified step |
| `ReaderWorker.Worker.NoteDown` | backend/homekey_controller/readers.py:515-526 | The in-place counters make the specified step |
| `TargetEvents.ReceivedExactly` | backend/homekey_bridge/server.py:215-259 | Over every interleaving, a presented card's event reaches the worker if and only if everything put before it had been taken out or refused, and the next to take something out is the worker, not a clearing or a fault |
| `TargetEvents.ReceivedOnceInOrder` | backend/homekey_bridge/server.py:215-231 | Events are received at most once and in order |
| `TargetEvents.ResumesAnswerReceivedCards` | backend/homekey_controller/readers.py:290-375 | Each RESUME is for a card of its own whose event the worker received and could read |
| `TargetEvents.FaultEndsSession` | backend/homekey_bridge/server.py:224-245 | A fault that the worker takes out of the queue ends its session there |
| `TargetEvents.TargetQueue.PutNoWait` | backend/homekey_bridge/server.py:215-222 | The in-place queue makes the specified step, refusing exactly when it holds something |
| `TargetEvents.TargetQueue.WaitForTarget` | backend/homekey_bridge/server.py:224-231 | So does the wait, which raises for a fault |
| `TargetEvents.TargetQueue.ClearTargetEvents` | backend/homekey_bridge/server.py:233-238 | The loop leaves the queue empty, and only by throwing out what it held |
| `TargetEvents.TargetQueue.DispatchFault` | backend/homekey_bridge/server.py:240-245 | Afterwards the queue holds the fault, whatever it held before |
| `Registry.NormalizeIdempotent` | backend/homekey_bridge/protocol.py:95-104 | A normalized id is its own normal form |
| `Registry.NormalizesSpellings` | backend/homekey_bridge/protocol.py:95-104 | Without white space an id is accepted exactly if it spells out six bytes in digits of either case with colons and hyphens anywhere, and all spellings are one id |
| `Registry.FiveBytesAreAccepted` | backend/homekey_bridge/protocol.py:95-104 | With white space in it an id of five bytes is accepted |
| `Registry.LoadRegistry` | backend/homekey_bridge/server.py:75-106 | The loop gives the registry, or the first error, of the specification, of which the next rows say what it holds |
| `Registry.LoadsExactly` | backend/homekey_bridge/server.py:79-103 | A document loads if and only if every key is a reader id and every entry has a door and a token, its own or the fleet's; otherwise the first entry that is not right decides the error |
| `Registry.RecordIsLastEntry` | backend/homekey_bridge/server.py:79-106 | The record under an id is what the last entry with this id says: door, enabled flag, token and legacy token |
| `Registry.EntryDecidesAdmission` | backend/homekey_bridge/server.py:48-57 | So the entry decides who is let in: who supplies the keyed hash of the id, with a fleet token, or the entry's own token; and nobody for a reader switched off |
| `Registry.KeysAreRegistered` | backend/homekey_bridge/server.py:75-106 | A document that loads registers every key under its normal form, and nothing else |
| `Registry.RegistryFile.EnrollFleetReader` | backend/homekey_controller/reader_enrollment.py:32-79 | A reader is enrolled exactly when allowed, and the whole new document is stated |
| `Registry.EnrolmentEqualsRestart` | backend/homekey_controller/reader_enrollment.py:39-79 | Loading the rewritten document gives the registry as before plus exactly the record returned |
| `Registry.LimitHolds` | backend/homekey_controller/reader_enrollment.py:60-69 | Over every sequence of enrolments the number of readers never passes the limit if it began within it, never shrinks, and no setting is altered |
| `Registry.EnrolmentSetsEntry` | backend/homekey_controller/reader_enrollment.py:69-72 | No key is dropped; an entry is left alone if and only if its key is not enrolled or already reads as enrolled; an enrolled key loses its own token and is enabled |
| `Registry.ReenrolmentForgets` | backend/homekey_controller/reader_enrollment.py:69-72 | The case is real: a reader switched off, with a token of its own, is switched on and its token forgotten |
| `Registry.RunningEqualsRestarted` | backend/homekey_controller/app.py:78-99 | Over every sequence of first contacts the running registry is the one a restart would load, old records stay, and the document only grows at its end |
| `KeyStoring.UpsertIssuerUpdates` | backend/homekey_controller/store.py:423-432 | Upserting into the list is the map update and keeps ids distinct |
| `KeyStoring.UpsertIssuersUpdates` | backend/homekey_controller/store.py:485-494 | So is a batch, the last of equal ids counting |
| `KeyStoring.UpsertEndpointUpdates` | backend/homekey_controller/store.py:434-453 | Putting an endpoint under an issuer updates that issuer's map and nothing else |
| `KeyStoring.RemoveIssuerRemoves` | backend/homekey_controller/store.py:416-421 | Removing an issuer removes its key |
| `KeyStoring.RemoveEndpointRemoves` | backend/homekey_controller/store.py:455-467 | Removing an endpoint removes it from every issuer's map |
| `KeyStoring.PurgedIsWellFormed` | backend/homekey_controller/store.py:455-467 | After it no issuer holds the endpoint, and ids stay distinct |
| `KeyStoring.LookupIsTable` | backend/homekey_controller/store.py:394-402 | Looking an issuer up by id in the list is looking it up in the map |
| `KeyStoring.ListsRefineMaps` | backend/homekey_controller/store.py:416-494 | Over every sequence of operations the lists stand for the maps the same operations make, with ids distinct, per issuer for endpoints |
| `KeyStoring.KeyStore.UpsertIssuer` | backend/homekey_controller/store.py:423-432 | New list and new stored document, stated outright |
| `KeyStoring.KeyStore.UpsertIssuers` | backend/homekey_controller/store.py:485-494 | New stored document of the batch; it always agrees with the list |
| `KeyStoring.KeyStore.RemoveIssuer` | backend/homekey_controller/store.py:416-421 | New list and new stored document |
| `KeyStoring.KeyStore.UpsertEndpoint` | backend/homekey_controller/store.py:434-453 | New list and document, or an error and no change exactly when the issuer does not exist |
| `KeyStoring.KeyStore.RemoveEndpoint` | backend/homekey_controller/store.py:455-467 | New list and document; true exactly when some issuer held the endpoint, else nothing changes |
| `KeyStoring.KeyStore.SetReaderPrivateKey` | backend/homekey_controller/store.py:335-340 | Stored exactly if it has 32 bytes |
| `KeyStoring.KeyStore.Reload` | backend/homekey_controller/store.py:232-260 | After a restart the lists stand for the same maps, with the same keys; only order may differ |
| `KeyStoring.LoadIssuers` | backend/homekey_controller/store.py:232-244 | A list made of the stored dictionaries stands for exactly them |
| `Pairing.EnrollmentService.UpdateHapPairings` | backend/homekey_controller/registration.py:55-68 | The stored keys are exactly the paired ones if and only if no two paired keys share an id; then retained issuers keep every endpoint and new ones have none; a call with the stored keys changes nothing |
| `Pairing.SynchronisedKeys` | backend/homekey_controller/registration.py:55-68 | Such a store's public keys are exactly the paired ones |
| `Pairing.StoredKeysAreInjective` | backend/homekey_controller/registration.py:55-68 | A well-formed store never holds two keys with one id |
| `Pairing.EnrollmentService.AddDeviceCredential` | backend/homekey_controller/registration.py:128-171 | Status and new lists of every case, of which the next row says what they mean for the stored maps |
| `Pairing.AddSetsOneEntry` | backend/homekey_controller/registration.py:128-171 | When it fails and with which status; on success exactly one entry of the requested issuer's map is set: to the first endpoint held with this key, with its enrolment set and all else kept, or to the new record |
| `Pairing.EnrollmentService.RemoveDeviceCredential` | backend/homekey_controller/registration.py:173-185 | Status and new lists |
| `Pairing.AddTwice` | backend/homekey_controller/registration.py:128-171 | Adding the same credential again reports a duplicate if and only if no issuer listed before the requested one holds an endpoint with that key |
| `Pairing.AddTwiceCanSucceedTwice` | backend/homekey_controller/registration.py:145-165 | The other case is real |
| `Pairing.RemoveTwice` | backend/homekey_controller/registration.py:173-185 | A removed credential is gone from every issuer: removing it again fails and changes nothing |
| `Pairing.AddThenRemove` | backend/homekey_controller/registration.py:128-185 | Adding a credential nobody held and removing it restores the lists |

## Left out

- Wi-Fi, LEDs, the button, HTTP updates and over-the-air updates: hardware and library calls. Of an update only the cancelled transceive and the closed connection are modelled, of button and firmware-check messages only the replies.
- AnsweredInTime: takes the largest gap between two passes as given and says nothing about the network's own delay.
- Inside `ReaderMachine` a blocking command's result is a parameter and its bytes on the line do not appear among the effects; both are in `LocalCommands.SerialLink`, for every timing.
- The firmware's 250-byte payload and 64-byte discovery buffers are sequences with a bound in the invariant; the ring, the two 1100-byte frame buffers and the message buffer are arrays.
- `mark_seen` and `reader_status`: single assignments and reads.
- TargetEvents.TargetQueue: `fail_pending` puts its error like `PutNoWait` and ignores a full queue.
- ReaderWorker.Worker.PollOnce: the transaction itself (Home Key authentication, access decision) is given by its outcome; the path for firmware without autonomous discovery is left out.
- ReaderWorker.WaitsAreBounded: speaks of the three reader failures; any other exception waits a fixed 2 s and touches no counter.
- EndToEnd: is about one connection; a new one has a new table and begins with the reader in any state. Target events and status messages, which are no replies, are in `Cards`, `TargetEvents` and `ReaderDiscovery`.
- Transport: a read that fails before it takes the lock leaves everything as it was and is not a step; `transceive` is a clamp of the timeout.
- KeyStoring.KeyStore.Reload: the order of issuers after a restart is any order, because the document is stored with sorted keys; first-match lookups by public key may therefore differ.
- The store's copies on the way in and out are values here, so aliasing cannot be expressed; encryption and SQLite are one trusted assignment; user mappings, the audit table, the import of legacy documents and setting the reader identifier (like setting the key) are left out.
- KeyStoring.KeyStore.UpsertIssuer: takes an issuer whose endpoint ids are distinct, which the source does not check.
- Registry: tokens are taken as already stripped, settings as of their own types, and lower case is that of ASCII.
- The vendored Home Key cryptography, ECP, nfcpy and HAP-python; access and button clients; the firmware download server; the command-line tools; configuration loading; the legacy TCP bridge.
