# BattLock verification

A Dafny model of the BattLock CAN authentication stack, with proofs of what its parts promise.
`dafny verify dfyconfig.toml` checks everything.

Code that changes state is modelled as it stands: the bus, the collector, the counters, the firmware's reassembly
buffer, the nodes, the state machine, the session manager and the orchestrator are classes whose methods update their
fields, and the loops of `fragment`, `reassemble`, `send_payload` and `verify_all` are loops. Each such method is proved
equal to a specification function; the main results are lemmas about those functions over every input and every run.
Exceptions are values of a `Result` or `Option`.

| file | models |
|---|---|
| `Transport.dfy`, `TransportTheorems.dfy`, `Can.dfy`, `Interleaving.dfy` | multi-frame transport and bus of `can/transport.py` |
| `Firmware.dfy`, `FirmwareTheorems.dfy`, `FirmwareLoss.dfy` | streaming receiver and sender of the firmware, and loss between them |
| `Interoperability.dfy` | the two transports read by each other |
| `Status.dfy`, `Collector.dfy`, `Telemetry.dfy`, `ReplayGuard.dfy` | status frames, collector, counters, and their composition over a lossy bus |
| `Floats.dfy`, `Nodes.dfy`, `VehicleVerdicts.dfy` | the two nodes, and the vehicle's verdicts over a run |
| `StateMachine.dfy`, `Crypto.dfy`, `Challenge.dfy`, `Orchestrator.dfy`, `ExampleLibrary.dfy`, `HandshakeTheorems.dfy` | the handshake under an arbitrary attacker on the bus |
| `Signatures.dfy` | raw and DER signatures |
| `ModeReport.dfy` | the per-mode frame verifier |
| `Wrappers.dfy`, `Bytes.dfy`, `Sequences.dfy` | optional values, integers as bytes, subsequences |

Where the code does not do what its documentation promises:

- `docs/can_transport_contract.md` (lines 5-11 and 108-110) asks both sides for identical bytes and no end-of-message flag,
  but the firmware sets bit 7 of the last sequence byte and waits for it. So Python rejects every firmware message up to
  894 bytes, and the firmware never completes a Python message up to 894 bytes (`PythonVerdictOnFirmwareFrames`,
  `FirmwareReadsPython`, with the exact ranges). The firmware also pads its last frame, so the bytes are identical only
  above 894 bytes and with a full last frame (`FramesIdenticalExactlyWhen`).
- The same document (lines 130-145) makes any gap in the sequence a hard error and keeps first frames of any length. The
  firmware checks no sequence numbers, so lost frames can join two messages (`WholeOnesExactlyWhen` says when), and ignores
  a first frame's length, so a short one is read with zeros in it (`FirmwareMatchesReassemble` says when that matters).
- The firmware sender takes 16-bit lengths, its receiver 512 bytes. Of 513 to 894 bytes the receiver keeps the first 509;
  from 895 on it takes a later frame for a new header and reads a length and contents out of the middle of the payload.
  It reports completion every time (`RoundTripIffFits`, `ReceivedContents`).
- `can/status_collector.py` (lines 22-23) says a lost B or C drops the sample. That fails exactly when later rounds without
  their A supply what an open round lacks, and then a mixture comes out (`SurvivorsExactlyWhen`, `LosingAMixesRounds`).
- `crypto/counters/replay_protection.py` never accepts 0; `simulink/verify_all_modes.py` re-arms it so that 0 is accepted
  repeatedly before the first positive counter (`UnflaggedExactlyWhen`).
- A run of the orchestrator that fails after its first transition leaves the state machine where it stopped, and nothing
  resets it, so no later run on the same orchestrator can succeed (`FirstStepIsFinal`).

Modelling choices: bytes are integers from 0 to 255 and C arithmetic is cut to its width where it could matter. Native
byte order in `IfffBBB` is taken as little-endian. A 32-bit float is its four bytes, and is read as a number, an infinity
or a NaN only to be compared with limits. The cryptographic library is a record of uninterpreted operations with three
laws (`Crypto.Lawful`); safety of the handshake uses none of them, and the attacker is any function from the step and
the queue to a new queue, applied before each receive. The library's DER codec follows section 2.2.3 of RFC 3279 and
section 8.3 of ITU-T X.690.

## Model

| member | source | states |
|---|---|---|
| Transport.Fragment | can/transport.py:40-71 | The appending loop returns exactly the frames defined in closed form by position: frame k carries bytes 5+7(k-1) up to 5+7k, the length in the first frame, the position as sequence byte; longer than 1790 bytes is the error |
| Transport.CheckFrames | can/transport.py:92-104 | The first loop lets a list through exactly when all frames are non-empty, at most 8 bytes and of one identifier; otherwise it reports the defect of the first bad frame |
| Transport.SortedBySequence | can/transport.py:106-107 | Sorting by sequence byte permutes the frames and orders them |
| Transport.SortIsStable | can/transport.py:106-107 | Frames with the same sequence byte keep their order of arrival |
| Transport.CheckSequence | can/transport.py:109-117 | The list comparison and the set-size test decide duplicates and gaps exactly as defined on the multiset of frames |
| Transport.Join | can/transport.py:119-135 | The collecting loop yields the concatenated bodies cut at the declared length, or the short-header or incomplete error |
| Transport.Reassemble | can/transport.py:74-135 | Equals a specification that, past the per-frame checks, mentions only the multiset of frames: no sorting, no order |
| Transport.RepeatedByCount | can/transport.py:112-113 | Comparing the size of the set of numbers with the length of the list detects repetition, and only repetition |
| Transport.SortedVerdict | can/transport.py:107-117 | Sorted frames without repeats and without gaps are numbered by their positions, so the one comparison with 0..N-1 misses nothing |
| TransportTheorems.CountIsLeast | can/transport.py:34-37 | The number of frames is the least whose capacity reaches the length; sequence numbers fit a byte exactly up to 1790 bytes |
| TransportTheorems.FragmentInBytes | can/transport.py:40-71 | Every frame byte by byte, with literal positions: frame 0 is 0, length low, length high and up to 5 payload bytes; frame k is k and payload bytes 7k-2 up to 7k+5; k frames suffice exactly up to 7k-2 bytes |
| TransportTheorems.FragmentShape | can/transport.py:57-69 | Every frame has at most 8 bytes and its position, at most 255, as sequence byte; only the last can be short; the first holds the length |
| TransportTheorems.CarriedPrefix | can/transport.py:57-69 | The first m frames carry the first bytes of the payload up to their capacity, in order, none lost or repeated |
| TransportTheorems.CarriedWhole | can/transport.py:57-71 | All frames together carry the payload and nothing else |
| TransportTheorems.LossyDelivery | can/transport.py:40-135 | For any frames of one message in any order with any omissions and repeats, the exact verdict: repeated, gap, incomplete, empty, or the payload; accepted if and only if the list is a permutation of the whole message |
| TransportTheorems.ArrivalOrderIrrelevant | can/transport.py:89-135 | For arbitrary frames, two arrival orders give the same bytes or the same error, except that a list with a bad frame may report another bad frame's defect |
| TransportTheorems.OrderIrrelevantExactlyWhen | can/transport.py:92-104 | The exact extent of that exception: all arrival orders of some frames end alike, error and all, if and only if all have legal length, or all are empty, or all are oversized, or there is one identifier and not both an empty and an oversized frame |
| TransportTheorems.MinimalForm | can/transport.py:34-37 | Whatever frames are accepted, their payload has at most 1790 bytes, fragments into no more frames than were received, and those deliver it again |
| TransportTheorems.RoundTrip | can/transport.py:40-135 | Fragmenting and reassembling returns the payload, for every payload up to the limit |
| TransportTheorems.MaxPayloadIsTight | can/transport.py:34-37 | 1790 bytes use sequence number 255; 1791 would need 256 |
| Can.CANBus.Send | can/transport.py:148-149 | Appends to the queue |
| Can.CANBus.Receive | can/transport.py:151-154 | Takes the oldest message, or returns None on an empty queue and leaves it empty |
| Interleaving.BusConserves | can/transport.py:138-154 | After any log of sends and receives: received, followed by queued, is what was sent, in order |
| Interleaving.SelectionUndoesInterleaving | docs/can_transport_contract.md:130-142 | Selecting by identifier undoes every interleaving of streams with distinct identifiers |
| Interleaving.InterleavedDelivery | docs/can_transport_contract.md:85-142 | Messages with distinct identifiers, fragmented, sent in any interleaving, with receives anywhere: after the bus is drained each identifier's frames reassemble to its payload |
| Firmware.CountsAgree | hardware/battlock_protocol.h:148-152 | The 16-bit frame count never wraps and equals the Python count |
| Firmware.BattLockReassembly.Init | hardware/battlock_protocol.h:103-108 | Forgets everything held without touching the buffer's bytes |
| Firmware.BattLockReassembly.Append | hardware/battlock_protocol.h:123-138 | The copying loops extend the bytes held and never write outside the 512-byte buffer |
| Firmware.BattLockReassembly.Feed | hardware/battlock_protocol.h:110-146 | One frame, in place: the bytes held, the declared total and the completion flag change as specified, and the result is the frame's last flag |
| Firmware.Fill | hardware/battery.ino:73-75 | Payload bytes, then zeros, fill the reused frame behind its header |
| Firmware.SendNext | hardware/battery.ino:76-76 | One transmission extends what was sent by the next frame, or refuses and leaves it |
| Firmware.SendPayload | hardware/battery.ino:50-80 | Whatever the controller refuses, exactly the frames before the first refusal are sent, in order, and true means all were; the reused frame and the 16-bit offset never spoil a frame |
| FirmwareTheorems.FrameInBytes | hardware/battery.ino:50-80 | Every frame the firmware sends byte by byte, with literal positions: eight bytes, zeros at the end, bit 7 of byte 0 set in the last one |
| FirmwareTheorems.Run | hardware/battlock_protocol.h:93-146 | No frames whatever, of any claimed length, make the bytes held exceed the buffer or the declared total |
| FirmwareTheorems.StreamIsCut | hardware/battlock_protocol.h:110-139 | The streaming receiver holds what concatenating all frames since the header and cutting at the declared length gives, from any earlier state and for frames in any order |
| FirmwareTheorems.ReceivedContents | hardware/battlock_protocol.h:110-146 | What the receiver holds after the sender's frames for every 16-bit length, from any state: the payload up to 512 bytes, its first 509 up to 894, and above that what follows the last frame mistaken for a header, with the total read from payload bytes; completion is reported every time |
| FirmwareTheorems.RoundTripIffFits | hardware/battlock_protocol.h:93-146 | From any receiver state, the sender's frames deliver the payload if and only if it has at most 512 bytes; then length, total and completion flag are right too |
| FirmwareTheorems.DoneExactlyOnLast | hardware/battlock_protocol.h:141-145 | The receiver reports completion on the last frame and no earlier one, if and only if the payload has at most 901 bytes |
| FirmwareLoss.FixedReceiver.Receive | hardware/battery.ino:163-176 | One frame into a receiver of a fixed length: a reception that ends with that length is copied out, any that ends is cleared, otherwise what was taken stays |
| FirmwareLoss.WholeOnesExactlyWhen | hardware/battlock_protocol.h:110-146 | Messages of one length up to 512 bytes, any of their frames lost: what the receiver takes is exactly the messages that arrived whole, in order, if and only if no message left without its last frame is ended by a later one without its header, with frames enough in number between |
| FirmwareLoss.TakenCount | hardware/battery.ino:163-176 | Under any loss the receiver takes as many messages as arrived whole plus those that ended an earlier one with enough frames; the flags alone tell what it holds |
| FirmwareLoss.LosingInnerFramesMixes | docs/can_transport_contract.md:144-145 | The smallest failing instance, of two messages of two frames the inner frames lost: the front of one and the back of the other are taken as one message, whatever they hold |
| Interoperability.FrameAgainstFragment | hardware/battery.ino:54-75 | A firmware frame differs from Python's, padded with zeros, in the sequence byte only |
| Interoperability.FramesAgree | hardware/battery.ino:50-80 | There are as many frames on both sides, and with bit 7 cleared they are equal up to padding if and only if the payload has at most 894 bytes |
| Interoperability.FramesIdenticalExactlyWhen | docs/can_transport_contract.md:5-11 | Both sides put identical frames on the bus if and only if the payload has more than 894 bytes and fills its last frame |
| Interoperability.PaddedDelivery | can/transport.py:119-135 | Python reassembles zero-padded frames to the payload, up to 1790 bytes |
| Interoperability.PythonReadsClearedFrames | can/transport.py:74-135 | Once bit 7 is cleared, Python reassembles the firmware's frames up to 894 bytes |
| Interoperability.PythonVerdictOnFirmwareFrames | hardware/battery.ino:70-72 | Python's verdict on the firmware's frames as sent, for every length: missing sequence up to 894 bytes, the payload from 895 to 1790, duplicate sequence above |
| Interoperability.FirmwareReadsPython | hardware/battlock_protocol.h:110-146 | The firmware collects Python's frames correctly up to 512 bytes but never reports them complete, for exactly the payloads up to 894 bytes |
| Interoperability.FirmwareMatchesReassemble | hardware/battlock_protocol.h:110-146 | At most 128 frames in sequence that Python accepts, canonical or not, payload at most 512 bytes: the firmware holds the same payload if and only if the first frame holds five payload bytes, or all there are, or every byte from the first it lacks on is zero |
| Interoperability.EmptyHeadIsMisread | hardware/battlock_protocol.h:121-129 | The smallest failing messages: one byte, not zero, behind a first frame without payload; Python delivers it and the firmware holds another |
| Status.StatusRoundTrip | can/encoder.py:28-103 | Every encodable status survives the 19-byte frame, and survives the three-frame split field for field |
| Status.DecodedReencodes | can/decoder.py:14-33 | Every 19-byte status frame is the encoding of exactly the status it decodes to |
| Status.StatusInBytes | can/decoder.py:14-33 | For any 19 bytes: counter from the first four, lowest first, then voltage, current, temperature of four each, soc, soh, faults; encoded back to the same bytes under 0x200; any other length is refused |
| Status.RoundInBytes | can/encoder.py:59-103 | The frames 0x200, 0x201 and 0x202 likewise, whatever the reserved bytes hold; zeros are sent in them |
| Status.RoundRefused | can/decoder.py:46-97 | A round cannot be read exactly if the first two frames do not have eight bytes or the third has fewer than four |
| Collector.StatusCollector.Feed | can/status_collector.py:55-83 | One frame: the slots and the outcome change as specified, including the decoder's error leaving the slots full |
| Collector.StatusCollector.Reset | can/status_collector.py:45-48 | Empties the slots |
| Collector.CollectorMeetsHistory | can/status_collector.py:55-83 | Over any stream, the outcome at each frame is a function of the whole history: a status exactly when a B or C first completes the pair since the latest A with no emission since, decoded from the latest A, B and C |
| Collector.RoundIsRead | can/status_collector.py:63-81 | Frames 0x200, 0x201, 0x202 of any contents make a new collector emit, with the third, the status their bytes spell, and nothing before |
| Collector.PendingExactlyWhen | can/status_collector.py:50-53 | A round is pending exactly from its A frame until both B and C came, unless it was emitted |
| Collector.NoFrameUsedTwice | can/status_collector.py:63-81 | Of two emissions, the later one's A, B and C all arrived after the earlier emission |
| Collector.OtherFramesIgnored | can/status_collector.py:74-76 | Deleting all frames that are not status frames changes no emitted status and no slot |
| Telemetry.SurvivorsExactlyWhen | can/status_collector.py:13-23 | Whatever frames of any rounds are lost, exactly the rounds that survived whole come out, in order and field for field, if and only if no incomplete round is followed by rounds without their A that, with it, supply some B and some C |
| Telemetry.EmissionCount | can/status_collector.py:63-81 | Under any loss there come out as many statuses as rounds survived whole plus rounds without their A that completed an open one |
| Telemetry.LostBAndC | can/status_collector.py:13-23 | If no A is lost, whatever B and C frames are, and whatever was held before, exactly the rounds that survived whole come out |
| Telemetry.LosingAMixesRounds | can/status_collector.py:63-81 | The smallest failing instance, C of one round and A of the next lost: a mixture of the two comes out, for every two statuses |
| Telemetry.EmittedEmbedInAnnounced | can/status_collector.py:55-83 | The counters emitted are a subsequence of the counters announced by A frames, for any stream |
| Telemetry.AnyLossKeepsOrder | crypto/counters/message_counter.py:7-11 | Whatever frames are lost, A frames included, the emitted counters strictly increase and the replay guard accepts every one |
| ReplayGuard.MessageCounter.Next | crypto/counters/message_counter.py:7-11 | Returns the number after the last one handed out |
| ReplayGuard.ReplayProtection.Validate | crypto/counters/replay_protection.py:7-14 | Accepts exactly what is above the kept counter, and keeps the larger of the two |
| ReplayGuard.LastIsMaximum | crypto/counters/replay_protection.py:3-14 | The kept integer is the maximum of its initial value and everything received |
| ReplayGuard.AcceptsExactlyNewMaxima | crypto/counters/replay_protection.py:3-14 | The guard accepts exactly the strict new maxima, as a guard that remembers every counter would |
| ReplayGuard.NeverAcceptedTwice | crypto/counters/replay_protection.py:9-10 | Of two accepted counters the later is larger, whatever is reordered, lost or duplicated |
| ReplayGuard.LargestAcceptedOnce | crypto/counters/replay_protection.py:7-14 | The largest counter delivered, if above the initial value, is accepted once and only once |
| Nodes.VehicleNode.HandleStatus | can/simulation/vehicle_node.py:81-128 | The checks in their order give the specified verdict; the guard moves before the value checks, and not on a malformed frame |
| Nodes.VehicleNode.Receive | can/simulation/vehicle_node.py:65-79 | Only status frames reach the status checks and the guard |
| VehicleVerdicts.GuardSeesStatusCounters | can/simulation/vehicle_node.py:87-100 | Over a run the guard sees exactly the counters of well-formed status frames, in order |
| VehicleVerdicts.FaultBits | can/can_ids.py:29-35 | The six fault masks together test exactly the six low bits |
| VehicleVerdicts.ValidExactlyWhen | can/simulation/vehicle_node.py:65-128 | In any run, on the bytes of the frame: VALID if and only if identifier 0x200, 19 bytes, counter positive and above every earlier well-formed one, the three floats not above 95, 450 and 140 by their bits, none of the six low bits of the last byte; replay, malformed and other identifiers likewise characterised |
| VehicleVerdicts.RejectedExactlyWhen | can/simulation/vehicle_node.py:102-126 | Which of injection, fault and near-limit is reported for a fresh status, on its bytes and in that order of precedence; injection limits 100, 500 and 150 |
| Floats.AboveByBits | can/simulation/vehicle_node.py:102-109 | A 32-bit float is above a non-negative limit exactly if its bits, as a number, lie above the limit's and not above those of infinity: so negative numbers and NaNs never are |
| Floats.AboveLimits | can/simulation/vehicle_node.py:102-126 | The bit patterns of the six limits: 95, 100, 140, 150, 450 and 500 |
| VehicleVerdicts.ValidCountersIncrease | can/simulation/vehicle_node.py:98-128 | Counters of VALID statuses strictly increase |
| VehicleVerdicts.RejectedFramesStillCount | can/simulation/vehicle_node.py:98-100 | Repeating a frame is a replay even if the frame was rejected for its values |
| Nodes.BatteryNode.SendStatus | can/simulation/battery_node.py:36-53 | Takes the next counter and encodes the fixed telemetry with it |
| VehicleVerdicts.SimulatedValues | can/simulation/battery_node.py:38-51 | The fixed telemetry is 51.2 V and 12.4 A to within half a unit in the last place, exactly 30 degrees, 85, 98 and no faults |
| VehicleVerdicts.BatteryToVehicle | can/simulation/battery_node.py:36-53 | The battery's status frames under any reordering, loss and repetition: VALID exactly when the counter is the largest yet, a replay otherwise |
| StateMachine.BattLockStateMachine.HelloReceived | protocol/state_machine.py:29-37 | Moves from DISCONNECTED only, and says whether it moved |
| StateMachine.BattLockStateMachine.CertificateVerified | protocol/state_machine.py:39-47 | Moves from HELLO_RECEIVED only, and says whether it moved |
| StateMachine.BattLockStateMachine.ChallengeSent | protocol/state_machine.py:49-57 | Moves from CERT_VERIFIED only, and says whether it moved |
| StateMachine.BattLockStateMachine.Authenticated | protocol/state_machine.py:59-67 | Moves from CHALLENGE_SENT only, and says whether it moved |
| StateMachine.BattLockStateMachine.SessionEstablished | protocol/state_machine.py:69-77 | Moves from AUTHENTICATED only, and says whether it moved |
| StateMachine.BattLockStateMachine.ResetMachine | protocol/state_machine.py:79-81 | Returns to DISCONNECTED from anywhere |
| StateMachine.LevelIsLongestFlow | protocol/state_machine.py:29-81 | After any log of calls the state is the length of the longest beginning of hello, cert, challenge, auth, session found in order since the last reset, and the number of True results since then |
| StateMachine.TelemetryNeedsWholeFlow | protocol/state_machine.py:29-81 | The session is active if and only if all five steps were called in order since the last reset |
| StateMachine.TelemetryAllowedExactlyWhen | protocol/state_machine.py:83-85 | The method answers True on a machine exactly if the calls made on it since the last reset contain the five steps in order |
| Challenge.DecimalInjective | can/simulation/vehicle_node.py:179-180 | No two integers print alike |
| Challenge.TimestampIsPrinted | can/simulation/vehicle_node.py:179-180 | Behind the nonce stand bytes 48 to 57 whose decimal value is the timestamp, without a leading 48 but for zero itself, and behind a 45 if it is negative |
| Challenge.ChallengeInjective | crypto/auth/verifier.py:10-10 | For nonces of one length the challenge bytes determine nonce and timestamp |
| Challenge.UnambiguousExactlyWhen | crypto/auth/verifier.py:10-10 | Challenges with nonces of two given lengths never collide if and only if the lengths are equal |
| Challenge.DigitsMove | crypto/auth/verifier.py:10-10 | How they collide otherwise: digits at the end of any nonce read as the front of the timestamp |
| Crypto.IssuedCertificateVerifies | crypto/certs/certificate.py:8-59 | A certificate as created, while not expired, verifies under the key that issued it |
| Crypto.SignedDataUnambiguousExactlyWhen | crypto/certs/certificate.py:12-18 | Certificates with two given tuples of field lengths never have the same signed bytes while differing, if and only if the tuples are equal or their sums differ |
| Crypto.KeyDeterminedExactlyWhen | crypto/certs/certificate.py:43-49 | The signed bytes determine the public key if and only if both layouts have it in the same place and length, or have no key, or have different sums |
| Nodes.VehicleNode.ReceiveAndVerifyCertificate | can/simulation/vehicle_node.py:145-165 | Stores the certificate as soon as it decodes, then verifies expiry and signature under the root key |
| Nodes.VehicleNode.SendNonce | can/simulation/vehicle_node.py:171-185 | The bytes sent are the bytes stored for verification |
| Nodes.VehicleNode.ReceiveAndVerifySignature | can/simulation/vehicle_node.py:191-217 | Verifies over exactly the stored challenge under the stored certificate's key, and refuses without either |
| Nodes.BatteryNode.ReceiveNonce | can/simulation/battery_node.py:55-66 | Stores the challenge bytes as received |
| Nodes.BatteryNode.SignAndRespond | can/simulation/battery_node.py:68-90 | Signs exactly the stored bytes, and raises without any |
| Orchestrator.SessionManager.AddSession | protocol/session_manager.py:7-9 | Adds or replaces one entry and leaves the others |
| HandshakeTheorems.SessionsExactlyWhen | protocol/session_manager.py:7-17 | After any runs a session exists exactly if it is that of a run that was authentic and began disconnected, and its battery is BAT001 |
| Orchestrator.BattLockOrchestrator.ExchangeCertificate | integration/orchestrator.py:263-348 | Phases 6 to 8 on live node, bus and state-machine objects, under any tampering, end as specified |
| Orchestrator.BattLockOrchestrator.EstablishSession | integration/orchestrator.py:450-508 | The end of phase 11: the state moves, the session is stored ahead of its confirmation, and only a readable session frame makes it active |
| Orchestrator.BattLockOrchestrator.ExchangeChallenge | integration/orchestrator.py:350-528 | Phases 9 to 11 on live objects, under any tampering, end as specified |
| Orchestrator.BattLockOrchestrator.RunOnce | integration/orchestrator.py:91-535 | A whole run, from any standing of the orchestrator, ends as the specification function says |
| HandshakeTheorems.CertificatePhaseSound | integration/orchestrator.py:263-348 | The certificate is accepted exactly from DISCONNECTED with an unexpired certificate that verifies under the root key |
| HandshakeTheorems.RunIsSafe | integration/orchestrator.py:279-528 | Against every attacker: trusted state or stored session if and only if begun disconnected and certificate and signature over exactly this challenge verified; ACTIVE if and only if, besides, the session frame came back readable |
| HandshakeTheorems.EndingExactlyWhen | integration/orchestrator.py:279-533 | Which failed check ends a run with an early return, a refused signature or an exception, each exactly characterised |
| HandshakeTheorems.AtMostOneSession | integration/orchestrator.py:322-508 | Over any number of runs and attackers at most one session is stored, exactly when the state is trusted, and it comes from one authentic run |
| HandshakeTheorems.FirstStepIsFinal | integration/orchestrator.py:322-326 | Once a run has left DISCONNECTED no later run changes state or sessions |
| HandshakeTheorems.HonestTranscript | can/simulation/battery_node.py:55-90 | On a faithful bus every frame arrives as sent, and the battery signs the bytes the vehicle stored |
| HandshakeTheorems.HonestFrames | can/can_ids.py:11-16 | The five frames of an undisturbed run with their identifiers as numbers, the request AUTH and the challenge |
| HandshakeTheorems.HonestCertificate | integration/orchestrator.py:176-185 | The certificate on the bus decodes to BAT001, BATTLOCK, the battery's serialized key, the issue date and the expiry date, signed over these five in this order |
| HandshakeTheorems.ExpiryDateDecides | integration/orchestrator.py:279-528 | On an undisturbed run the expiry date alone decides: an active stored session, an early return, or an exception if it does not parse |
| HandshakeTheorems.HonestRunSucceeds | integration/orchestrator.py:279-528 | With a valid certificate and no interference a new orchestrator reaches an active session and stores it |
| HandshakeTheorems.Agreement | integration/orchestrator.py:350-460 | Over all runs of a battery, nonces of one length and distinct: if the signature accepted in a trusted run covers only such challenges of these runs as the battery had been handed, it had been handed this run's challenge, which is the challenge of no other run |
| HandshakeTheorems.AgreementInTheSameRun | integration/orchestrator.py:350-460 | If besides no challenge is handed over before the run whose nonce it begins with, the battery was handed the challenge in that very run |
| HandshakeTheorems.EmittedIsUnforged | crypto/crypto_utils/signatures.py:25-42 | Signing hashes first: if signatures that cover challenges of these runs come from the battery, and no two messages of these runs collide, the accepted signature covers only challenges the battery had been handed |
| HandshakeTheorems.TrustRestsOnBatteryKey | crypto/certs/certificate.py:40-58 | If the manufacturer signed the bytes of the certificate a trusted run accepted, and it has its key where issued certificates have it, that key is the battery's |
| HandshakeTheorems.AgreementFromRoot | integration/orchestrator.py:279-460 | From the root key on: with signatures by manufacturer and battery only, hashing without collisions and fresh nonces, the battery was handed a trusted run's challenge in that very run |
| HandshakeTheorems.AgreementIsNotVacuous | crypto/auth/verifier.py:4-12 | For every digest function, however short its digests, a lawful library exists with which every log of undisturbed runs whose challenges have different digests meets all hypotheses of the agreement results |
| Signatures.FitsMeansBelowLimit | crypto/crypto_utils/signatures.py:57-57 | A content is short enough for 32 bytes exactly when its value is below 2 to the power 256 |
| Signatures.ContentUnique | crypto/crypto_utils/signatures.py:51-57 | Shortest-form INTEGER contents are the encoding of their value, so decoding loses nothing |
| Signatures.RawRoundTrip | crypto/crypto_utils/signatures.py:51-71 | Every 64-byte raw signature survives the way to DER and back |
| Signatures.DerRoundTrip | crypto/crypto_utils/signatures.py:51-71 | Every DER signature that converts to raw form converts back to itself |
| Signatures.AcceptedDer | crypto/crypto_utils/signatures.py:51-71 | What converts to raw form is exactly what some raw signature converts to |
| Signatures.DerInBytes | crypto/crypto_utils/signatures.py:51-57 | Exactly the strings 0x30, length, 0x02, length, content, 0x02, length, content with shortest contents are DER; they give the two contents right-aligned in 32 bytes each, in order, or are too large |
| Signatures.RawInBytes | crypto/crypto_utils/signatures.py:59-71 | 64 bytes and no other number are written in that form, the first half first |
| ModeReport.VerifyRow | simulink/verify_all_modes.py:60-86 | The loop body re-arms and moves the mode's guard and computes the verdicts of one row |
| ModeReport.VerifyRows | simulink/verify_all_modes.py:51-86 | The loop over rows of all modes, with one guard object a mode, gives the specified rows |
| ModeReport.SortedModes | simulink/verify_all_modes.py:101-101 | The modes met, in increasing order, each once |
| ModeReport.VerifyAll | simulink/verify_all_modes.py:51-117 | The rows, and one report line a mode computed from that mode's rows; the error for no rows, and for a mode without description |
| ModeReport.UnflaggedExactlyWhen | simulink/verify_all_modes.py:59-79 | A row is unflagged if and only if its counter is positive and above all earlier ones of its mode, or 0 with no earlier positive one |
| ModeReport.RowMeans | simulink/verify_all_modes.py:68-86 | Every field written about a row, from the row itself and the counters before it |
| ModeReport.ModesAreIndependent | simulink/verify_all_modes.py:57-86 | However modes are interleaved, a mode's verdicts are those of its rows verified alone |
| ModeReport.OwnColumnsMean | simulink/verify_all_modes.py:103-114 | The three computed columns are 1 exactly if some row of the mode has a good signature, an old counter, a voltage above 100; YES compares them with the model's |
| ModeReport.ModelColumnsMean | simulink/verify_all_modes.py:104-108 | The three model columns are the largest values of the mode's rows |
| ModeReport.AgreementMeans | simulink/verify_all_modes.py:101-117 | YES if and only if rows and model flags agree, for signature, replay and injection, on whether some row of the mode showed it |

## Left out

- ECDSA, SHA-256, key generation, PEM, JSON and base64: library code, present only as uninterpreted operations.
- Certificate dates and the wall clock: whether a certificate is expired, or its date unreadable, is a parameter.
- Rounding of Python floats to 32 bits when a status is packed: statuses carry 32-bit floats from the start.
- The `TypeError` for a payload that is not bytes: excluded by static types.
- Serial, MCP2515 and ATECC drivers, Arduino `setup` and `loop` apart from the receptions in `FirmwareLoss.FixedReceiver`, and the firmware's own state changes: hardware calls with placeholder keys and digests.
- `_handle_session_id`, and text decoding of identity frames: printing and a comparison with the last identifier seen; neither touches the guard, so `Nodes.VehicleNode.Receive` reports such frames as carrying no telemetry.
- Reading and writing CSV, logging, metrics, plots and benchmarks: input, output and reporting; rows reach `ModeReport.VerifyAll` as numbers, and report lines already written when an unknown mode raises are not kept.
- Fragment timeouts and the 8-byte check in `CANMessage`: pending in the repository.
- `attacks/`, `simulation/`, `crypto_api.py`, `integration/verify_frames.py`, provisioning and the message dataclasses: demonstrations, duplicates and thin wrappers.
- How Python's `sorted` works: only what it returns is stated, by `Transport.SortedBySequence`, `Transport.SortIsStable` and `ModeReport.SortedModes`.
- Telemetry.AnyLossKeepsOrder: counters stay below 2 to the power 32, since encoding raises beyond that.
- HandshakeTheorems.Agreement: that signatures are not forged, and nonces not repeated, are hypotheses, met by the libraries of `ExampleLibrary.dfy` and every log of undisturbed runs; they are not derived, because the operations are uninterpreted.
- Randomness in signing: `sign` is a function of key and message, so two signatures of one message by one key are the same.
- Signatures.DerToRaw: a signature so long that DER needs the long length form is reported as not DER; the library would decode it and the conversion overflow. Both raise.
