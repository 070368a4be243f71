# Verified model of the SO-101 impedance daemon and its companion scripts

Dafny models of the parts of the repository whose promises span more than one function, and proofs
of those promises. `dafny verify dfyconfig.toml` checks everything.

* **The encoder circle.** `Encoder` is arithmetic modulo 4096 and the shortest-path difference.
  `TravelEnvelope`, `PositionGate` and `Admission` follow a batch of positions from the bus to the
  control law: first the travel check, whose refusal is final, then the gate that wants a second
  opinion. `SoftLimits` is the way back from outside the limits. `Ramps` is the Python side, which
  has to agree with the daemon about which way round a joint goes.
* **Shared memory.** `SeqLock` and `CommandChannel` are state machines whose steps are single memory
  accesses of two processes, and their theorems are about every interleaving.
* **The servo bus.** `ServoBus` has servos that drop EPROM writes unless torque is off and the lock is
  clear, and that re-arm torque on a duty write; a bus on which any transaction may be lost on the
  way out or on the way back, independently; and the daemon's code over it. `ServoBeliefs` is what the
  daemon goes on believing about a servo.
* **The supply-collapse count.** `ServoErrorLog`, `IntervalMerge`, `EpisodeSweep`,
  `EpisodeCorrectness`, `CollapseCount`, `DoubleSums` and `PrintedTotals` go from logged transitions to
  the report; `RelayLog` is an input that shows where it errs.
  `StableSort` is Python's sort, `Reals` and `Wrappers` are small shared helpers.
* **Motion and teleoperation.** `Clutch` is the engage-relative clutch with its hold latch over any
  group of rotations, `HermiteSegment` and `SplineRecorder` the recorded spline, `PontineRelay` the
  context low-pass.
* **Memory scaling.** `VramFit` is the least-squares line and the batch it says will fit.

Code that updates state in place is a class or a method with loops, each proved to compute a
function of its inputs or of the old state; the laws are lemmas about that function. Positions,
duties, gains and times are exact reals, encoder readings and nanoseconds are integers.

Where the code does not do what its comments say, the model follows the code:

* The comment at `rust/so101_impedance_ctrl/src/control.rs:784-789` says the believed position frames
  stay exact because the loop tracks the mode writes it performs. They are updated on status 0 only,
  and a SetOperatingMode that reports failure may have switched the mode
  (`ServoBeliefs.FailedReportCanHideASwitch`); `ServoBeliefs.FrameBeliefStaysRightExactlyWhen` is the
  exact condition. A failed SetCalibration has the same effect on the believed offset and range
  (`ServoBeliefs.FailedReportCanHideACalibration`,
  `ServoBeliefs.CalibrationBeliefStaysRightExactlyWhen`). What the travel check makes of a missed mode
  switch is `TravelEnvelope.MissedSwitchIsRefusedExactlyWhen`.
* `examples/omx/record_grab.py:156-161` promises C1 continuity at every waypoint and a smooth start and
  stop. Segments shorter than half a unit are skipped, and with them the continuity
  (`SplineRecorder.SkippingBreaksTheCurve`); three lemmas give the exact conditions.
* `examples/omx/reset_environment.py:157` promises the given speed; the frame count is truncated, but not
  below one, so a move that does not divide into whole frames is faster, or slower if it is shorter
  than a frame (`SplineRecorder.MoveSpeed`, `SplineRecorder.MoveSpeedMissesBothWays`).
* `examples/analyze_servo_error_log.py:315-318` says a printed total that rises is a bug in the script.
  The exact totals never rise, but the script adds doubles and rounds them, and at a tie between two
  tenths the printed ones can (`RelayLog.WarningIsReachable`); `PrintedTotals.RiseIsPossibleExactlyWhen`,
  `PrintedTotals.RiseOnlyAtATie` and `DoubleSums.SumIsNear` say when.
* The client in `src/lerobot/robots/so101_impedance_follower/shm_client.py:458-483` gives up waiting after
  two seconds and may then overwrite a command the daemon is copying
  (`CommandChannel.ImpatienceMixesCommands`). Giving up is harmless; writing before `ack_seq` equals
  `cmd_seq` is what breaks the channel (`CommandChannel.StoreIsSafeExactlyWhenAcknowledged`).
* PID coefficients live below address 40, which `rust/so101_impedance_ctrl/src/feetech.rs:58-59` calls
  write-protected EPROM, but their command does not unlock it: it reports success while a servo with
  torque on drops all three (`ServoBeliefs.PidStatusCanBeEmpty`, `ServoBus.PidTakesExactlyWhen`).
* Below the intercept the memory script reports batch 0, which does not fit on its own line either, and
  on a falling line it reports where the line starts to fit (`VramFit.ReportCanMislead`,
  `VramFit.ReportIsTheLargestExactlyWhen`).

## Model

| member | source | states |
|---|---|---|
| `Encoder.ComputeWrappedDelta` | rust/so101_impedance_ctrl/src/control.rs:61-71 | both loops terminate for every pair of positions and leave `WrappedDelta`: the representative of the difference in [-2048, 2048], at exactly half a turn the one on the side of `a - b` |
| `Encoder.DeltaRepresents` | rust/so101_impedance_ctrl/src/control.rs:53-60 | the result is congruent to `a - b` modulo 4096 and within half a turn |
| `Encoder.DeltaIsNearest` | rust/so101_impedance_ctrl/src/control.rs:53-60 | no other representative of `a - b` is nearer to zero: the short way round |
| `Encoder.DeltaIs` | rust/so101_impedance_ctrl/src/control.rs:61-71 | any representative within half a turn is the result, except that at half a turn the sign is that of `a - b` |
| `Encoder.DeltaInCounts` | rust/so101_impedance_ctrl/src/control.rs:61-71 | the same in numbers, both ways: `d` is the result if and only if it is `a - b` give or take whole turns of 4096, within 2048 of zero, and at 2048 on the side `a - b` is on |
| `Encoder.DeltaAntisymmetric` | rust/so101_impedance_ctrl/src/control.rs:61-71 | swapping the arguments flips the sign, also at exactly half a turn |
| `Encoder.DistanceIsAMetric` | rust/so101_impedance_ctrl/src/control.rs:53-71 | the magnitude is a metric on the circle: symmetric, zero exactly on congruent positions, triangle inequality |
| `Encoder.DeltaIgnoresTheFrame` | rust/so101_impedance_ctrl/src/control.rs:80-91 | shifting both positions by any offset, folded or not, keeps the magnitude; it keeps the value if and only if they are not half a turn apart or the readings keep their order. The spring error is the same in both position frames |
| `PositionGate.FirstImplausibleStep` | rust/so101_impedance_ctrl/src/control.rs:104-115 | None exactly when no motor moved more than the budget around the circle; otherwise the lowest such motor with its wrapped step |
| `PositionGate.Gate.Accept` | rust/so101_impedance_ctrl/src/control.rs:159-189 | the new `pending` and the verdict are those of `Decide`, for any batch length and any `prev` |
| `PositionGate.CopyBatch` | rust/so101_impedance_ctrl/src/control.rs:177-180 | the held copy has six slots, each the reading of its motor, or zero where the reply was short |
| `PositionGate.PendingIsTheLastRejection` | rust/so101_impedance_ctrl/src/control.rs:130-136 | over every run: the gate holds exactly the offer just rejected, and nothing otherwise |
| `PositionGate.PrevIsTheLastAccepted` | rust/so101_impedance_ctrl/src/control.rs:155-158 | over every run: `prev` is the last accepted batch, however many rejections lie between |
| `PositionGate.AcceptedExactlyWhen` | rust/so101_impedance_ctrl/src/control.rs:120-129 | over every run, both ways: an offer is accepted if and only if nothing was accepted before, or it is within budget of the last accepted batch, or of the immediately preceding offer when that one was rejected |
| `PositionGate.RejectionIsNamed` | rust/so101_impedance_ctrl/src/control.rs:139-146 | a rejection names the lowest motor over budget against the last accepted batch, its wrapped step, and whether a batch was already being held |
| `PositionGate.SteadyStreamIsNeverRejectedTwice` | rust/so101_impedance_ctrl/src/control.rs:124-129 | if consecutive reads agree the gate never rejects twice in a row: one tick of staleness at most |
| `PositionGate.DirectDriftIsBounded` | rust/so101_impedance_ctrl/src/control.rs:117-129 | while nothing is let in by corroboration alone, a joint moves at most the budget times the number of accepted offers around the circle |
| `TravelEnvelope.EnvelopeExistsExactlyWhen` | rust/so101_impedance_ctrl/src/control.rs:679-688 | in numbers: a calibration gets an envelope if and only if its range is not empty and the widened travel leaves more than 96 of the 4096 counts out; the envelope is then that travel |
| `TravelEnvelope.ContainsIsExact` | rust/so101_impedance_ctrl/src/control.rs:679-717 | for every envelope `new` builds and either frame: `contains` holds if and only if the reading is congruent to some point of the (offset) arc |
| `TravelEnvelope.ContainsTheTravel` | rust/so101_impedance_ctrl/src/control.rs:679-717 | from the calibration: a reading is contained if and only if it shows a point of the widened travel, homing offset added in the raw frame, give or take whole turns |
| `TravelEnvelope.OffTravelIsRefused` | rust/so101_impedance_ctrl/src/control.rs:951-991 | a joint whose calibration leaves more than 96 counts out and whose frame is known gets the batch refused by any reading that shows no point of its widened travel |
| `TravelEnvelope.AcceptedExactlyWhen` | rust/so101_impedance_ctrl/src/control.rs:951-991 | a batch passes if and only if every reading is at least 0 and under 4096 and every joint with an envelope and a frame is inside it |
| `TravelEnvelope.FrameOfAMode` | rust/so101_impedance_ctrl/src/control.rs:622-628 | mode 0 is the frame in which the servo shows the corrected count, mode 2 the one in which it shows that plus the homing offset, and no other mode has one |
| `TravelEnvelope.SoftLimitPositionIs` | rust/so101_impedance_ctrl/src/control.rs:304-315 | a raw reading with a known offset becomes the corrected one in [0, 4096); with a corrected or unknown frame, or no offset, the reading is used as it is |
| `TravelEnvelope.ContainsIsTheBand` | rust/so101_impedance_ctrl/src/control.rs:696-717 | on the encoder, `contains` is membership in the reported band, which runs through the seam when low > high |
| `TravelEnvelope.FramesAgree` | rust/so101_impedance_ctrl/src/control.rs:304-315 | a raw reading is inside in the raw frame if and only if its corrected position is inside in the corrected frame |
| `TravelEnvelope.MoreThan96CountsAreRefused` | rust/so101_impedance_ctrl/src/control.rs:655-671 | a built envelope always refuses an arc of more than 96 counts, in either frame |
| `TravelEnvelope.FirstOffEncoder` | rust/so101_impedance_ctrl/src/control.rs:957-967 | the lowest reading outside [0, 4096), None exactly when there is none |
| `TravelEnvelope.FirstOutside` | rust/so101_impedance_ctrl/src/control.rs:970-981 | the lowest joint with a reading, an envelope and a frame whose reading is outside, None exactly when there is none |
| `TravelEnvelope.EveryCheckedFitsOther` | rust/so101_impedance_ctrl/src/control.rs:982-984 | true exactly when every checked joint is outside in the believed frame and inside in the other |
| `TravelEnvelope.TrueReadingsAreNeverRefused` | rust/so101_impedance_ctrl/src/control.rs:933-950 | with believed frames right or unknown, a batch from joints inside their calibrated travel is never refused, for any offsets, non-negative margins and seam placement |
| `TravelEnvelope.MissedSwitchIsRefusedExactlyWhen` | rust/so101_impedance_ctrl/src/control.rs:884-896 | with every believed frame wrong, a batch of true readings is refused if and only if some joint, displaced by its homing offset, is off its widened travel; the lowest such joint is named, and the mode-switch flag is set if and only if all joints with an envelope are |
| `TravelEnvelope.RefusalIsExplained` | rust/so101_impedance_ctrl/src/control.rs:951-991 | acceptance and refusal, both ways: off-encoder readings take precedence, the lowest offender is named, and the mode-switch flag is set if and only if the batch with all known frames flipped is accepted while no checked joint fits |
| `SoftLimits.WithoutMemoryOnlyTheWayOutIsStopped` | rust/so101_impedance_ctrl/src/control.rs:317-346 | inside the limits every command passes; outside them with no legal position known, a command is stopped if and only if moving its way leads further out |
| `SoftLimits.OnlyTheWayHomeIsAllowed` | rust/so101_impedance_ctrl/src/control.rs:317-346 | outside them with a legal position known, a command passes if and only if it points the short way round to that position, whichever side of the seam it is on |
| `SoftLimits.TickShortensTheWay` | rust/so101_impedance_ctrl/src/control.rs:317-346 | one tick of a plant that obeys the command shortens the way home by exactly the distance moved, also through the seam |
| `SoftLimits.RecoveryNeverLosesGround` | rust/so101_impedance_ctrl/src/control.rs:287-294 | over any run of such ticks the distance home is the starting distance minus the distance travelled: it never grows |
| `Admission.PositionState.OnRead` | rust/so101_impedance_ctrl/src/main.rs:1006-1066 | one read changes the gate, the positions in use, the seeded flag and the blind-tick count as `Admit` says; a failed or refused read keeps the positions |
| `Admission.BatchIsAdmittedExactlyWhen` | rust/so101_impedance_ctrl/src/main.rs:1006-1066 | over every run, both ways and by the readings alone: a batch becomes the positions in use, with no blind tick, if and only if it is on the encoder and inside every checked travel and nothing was admitted before, or it agrees with the last admitted batch, or with the last batch inside travel if that was turned down; in every other case the positions stay and one more blind tick is counted |
| `Admission.TwoSoundReadsAreEnough` | rust/so101_impedance_ctrl/src/main.rs:1011-1018 | of two batches inside travel in a row that agree, one is admitted: a misread costs at most two ticks |
| `Admission.MemoryIsExact` | rust/so101_impedance_ctrl/src/main.rs:1006-1066 | over every run: the positions in use are the last batch that ought to have been admitted, by the readings alone, `blind_ticks` counts the ticks since, and the gate holds exactly the last batch inside travel if that was turned down |
| `Admission.AdmittedPositionsAreCorroborated` | rust/so101_impedance_ctrl/src/main.rs:1011-1018 | over every run: an admitted batch is on the encoder and inside every checked travel, and is the first, or within budget of the last admitted batch, or of the last batch inside travel, itself turned down |
| `Ramps.Interpolate` | examples/measure_so101_cerebellum.py:171-177 | a target for each of the six motors, from that motor's own poses and travel |
| `Ramps.LargestOf` | examples/measure_so101_cerebellum.py:185-187 | an upper bound on every joint's distance along its travel that one of them attains |
| `Ramps.TravelDistance` | examples/measure_so101_cerebellum.py:185-187 | over all six motors: an upper bound on the distance along the travel that one of them attains |
| `Ramps.TargetIsOnTheRamp` | examples/measure_so101_cerebellum.py:171-177 | for frac in [0, 1] the raw target is on the encoder, and on the joint it sits exactly at the interpolated place, between the two poses along the travel |
| `Ramps.RampStaysInsideTheEnvelope` | rust/so101_impedance_ctrl/src/control.rs:713-716 | every raw target of a ramp between two poses inside a joint's range is inside the range and inside the daemon's envelope in the raw frame, for any non-negative margin |
| `Ramps.DaemonDrivesAlongTheTravel` | examples/measure_so101_cerebellum.py:180-182 | the daemon's wrapped error equals the error along the travel if and only if that is under half a turn, or half a turn on the raw side |
| `Ramps.RampStep` | examples/measure_so101_cerebellum.py:185-187 | between two points of a ramp each joint steps by its share, at most that share of the travel distance |
| `Ramps.RampIsFollowedAlongTheTravel` | examples/measure_so101_cerebellum.py:131-144 | consecutive targets less than half a turn apart are driven along the travel and not across the seam |
| `SeqLock.SnapshotsAreWholeAndOrdered` | rust/so101_impedance_ctrl/src/shm.rs:201-241 | over every interleaving of one word-by-word writer and a word-by-word reader: a returned value is exactly the record current when its attempt began, if fewer than 2^31 writes complete inside the attempt, and successive reads never go back |
| `SeqLock.CallIsFresh` | rust/so101_impedance_ctrl/src/shm.rs:221-241 | a call made after k completed writes never returns a record older than the k-th |
| `SeqLock.PublishedIsWhatWasWritten` | rust/so101_impedance_ctrl/src/shm.rs:204-211 | each completed write publishes the words as they stand when it closes; published records are never rewritten |
| `SeqLock.RetryMeansAWriter` | rust/so101_impedance_ctrl/src/shm.rs:227-239 | an attempt is thrown away at its check only because a write opened after it began |
| `SeqLock.LoadDiscardsExactlyWhenOpen` | rust/so101_impedance_ctrl/src/shm.rs:227-231 | over every run: an attempt is thrown away at its load if and only if a write is open then; otherwise it starts copying |
| `SeqLock.CheckReturnsUndisturbed` | rust/so101_impedance_ctrl/src/shm.rs:232-238 | an attempt that reaches its check with no write opened since it began returns the record as it stands |
| `SeqLock.UndisturbedCallSucceeds` | rust/so101_impedance_ctrl/src/shm.rs:221-241 | a call with an attempt to make, during which no write is open, returns the record as it stands, from its first attempt |
| `SeqLock.ExhaustedMeansEveryAttemptWasSpoiled` | rust/so101_impedance_ctrl/src/shm.rs:221-241 | nothing is returned only after exactly `max_retries` loads, each of which met an open write or was followed by a write that opened before its own check |
| `SeqLock.CallCanFinish` | rust/so101_impedance_ctrl/src/shm.rs:221-241 | no call gets stuck: in any state, while the writer stands still, the reader's own steps finish it, with the record if an attempt is left and no write is open and with nothing if not |
| `SeqLock.UnchangedMeansUntouched` | rust/so101_impedance_ctrl/src/shm.rs:228-238 | with the wrapping u32 counter an unchanged `seq` means that no write was even opened, under the 2^31 bound |
| `SeqLock.RunKeepsTheInvariant` | rust/so101_impedance_ctrl/src/shm.rs:204-241 | the writer, reader and result invariants hold at every state of every run |
| `SeqLock.WrappedCounterTearsARead` | rust/so101_impedance_ctrl/src/shm.rs:229-238 | the bound is sharp: exactly 2^31 writes inside one attempt can yield a value that was never published |
| `CommandChannel.StepKeepsTheInvariant` | rust/so101_impedance_ctrl/src/control.rs:391-414 | every atomic step of the daemon, or of any client that writes only when no command is outstanding, keeps the invariant of both parties and the logs, whether or not the client gives up waiting |
| `CommandChannel.RunKeepsTheInvariant` | rust/so101_impedance_ctrl/src/shm.rs:158-171 | that invariant holds at every state of every run with such a client |
| `CommandChannel.CommandsAreAppliedExactlyOnce` | rust/so101_impedance_ctrl/src/control.rs:369-414 | over every interleaving with such a client: commands run are the submitted ones in order, fields intact, once each, at most one behind; every status the client reads is that of the command it waited for; what the poll returns describes the command it ran |
| `CommandChannel.StoreIsSafeExactlyWhenAcknowledged` | rust/so101_impedance_ctrl/src/shm.rs:158-171 | the client's condition is exact: whenever the daemon may still read a word, a store that changes it keeps every later command intact if and only if `ack_seq` equals `cmd_seq`; otherwise the daemon, left alone, runs a command nobody submitted |
| `CommandChannel.SubmitIsSafeExactlyWhenAcknowledged` | rust/so101_impedance_ctrl/src/shm.rs:158-171 | and so for submitting: while the daemon has not run the outstanding command, another submission keeps it at most one behind if and only if nothing is outstanding |
| `CommandChannel.CommandCanBeAnswered` | rust/so101_impedance_ctrl/src/control.rs:369-414 | nobody gets stuck: from any reachable state in which the client waits, whatever the daemon is at, steps lead to the command being run, acknowledged, and its status heard |
| `CommandChannel.ImpatienceMixesCommands` | src/lerobot/robots/so101_impedance_follower/shm_client.py:458-483 | a run of the shipped client, which times out and writes without looking, in which the daemon runs a command nobody submitted |
| `ServoBus.Bus.WriteEach` | rust/so101_impedance_ctrl/src/control.rs:1062-1082 | writes in order, stopping at the first without an acknowledgement |
| `ServoBus.Bus.VerifyOperatingMode` | rust/so101_impedance_ctrl/src/control.rs:472-483 | success exactly when the read-back arrives and is the expected mode |
| `ServoBus.Bus.SetOperatingMode` | rust/so101_impedance_ctrl/src/control.rs:491-513 | leaves the bus and the outcome of up to three write-and-verify attempts, stopping at the first that verifies |
| `ServoBus.Bus.ApplyCommand` | rust/so101_impedance_ctrl/src/control.rs:1062-1101 | leaves the bus and the status of the command's own sequence of transactions; 0 on success and 1 on any error |
| `ServoBus.Bus.ReleaseAll` | rust/so101_impedance_ctrl/src/control.rs:734-760 | all duties, then all torques, then the read-back of every motor |
| `ServoBus.ReportedModeIsTrue` | rust/so101_impedance_ctrl/src/control.rs:485-513 | a reported mode is the mode the servo is in, whatever the bus lost, within three attempts of four transactions, and nobody else is touched |
| `ServoBus.CleanBusSetsTheModeAtOnce` | rust/so101_impedance_ctrl/src/control.rs:416-441 | on a bus that loses nothing the first attempt sets any one-byte mode from any state, torque on or locked |
| `ServoBus.ModeAfterwards` | rust/so101_impedance_ctrl/src/control.rs:491-513 | the mode after the command is the new one if and only if one attempt's mode write reached an unlocked servo with torque off; otherwise the old one |
| `ServoBus.StatusZeroIsTrue` | rust/so101_impedance_ctrl/src/control.rs:1062-1101 | over every command: status 0 means the mode or homing offset really is in the servo; only the addressed servo is ever touched; a servo that is not there gives status 1 |
| `ServoBus.ModeCommandSucceedsExactlyWhen` | rust/so101_impedance_ctrl/src/control.rs:491-513 | status 0 if and only if one of exactly three attempts in a row succeeds |
| `ServoBus.AttemptSucceedsExactlyWhen` | rust/so101_impedance_ctrl/src/control.rs:443-483 | from the bus's fates: an attempt succeeds if and only if its three writes are acknowledged, its read-back comes through, and the servo holds the mode, because this attempt set it and it fits a byte or because it had it already |
| `ServoBus.OneSparedAttemptIsEnough` | rust/so101_impedance_ctrl/src/control.rs:485-513 | an attempt that loses nothing sets the mode with status 0, however the ones before it were spoiled |
| `ServoBus.WritesSucceedExactlyWhen` | rust/so101_impedance_ctrl/src/control.rs:1062-1082 | a sequence of writes succeeds if and only if each is acknowledged |
| `ServoBus.TorqueAfterwards` | rust/so101_impedance_ctrl/src/control.rs:1065-1070 | on any bus, from its fates: torque is as asked if and only if the first write lands, the lock if and only if the first is acknowledged and the second lands, nothing else changes; status 0 if and only if both are acknowledged |
| `ServoBus.CleanBusSetsTheTorque` | rust/so101_impedance_ctrl/src/control.rs:1065-1070 | a bus that loses nothing always answers 0 with both registers as asked |
| `ServoBus.TorqueStatusIsTrue` | rust/so101_impedance_ctrl/src/control.rs:1065-1070 | if acknowledgements are honest, status 0 means torque and lock are both as asked and nothing else changed |
| `ServoBus.PidAfterwards` | rust/so101_impedance_ctrl/src/control.rs:1071-1079 | on any bus, from its fates: status 0 if and only if all three writes are acknowledged, and each coefficient is taken if and only if its write was sent and lands on a limp, unlocked servo |
| `ServoBus.CalibrationSucceedsExactlyWhen` | rust/so101_impedance_ctrl/src/control.rs:1024-1060 | on any bus, from its fates: status 0 if and only if the five writes are acknowledged, the read-back comes through, and the servo holds the rounded offset, because this command set it and it fits or because it had it already |
| `ServoBus.PayloadNumbers` | rust/so101_impedance_ctrl/src/control.rs:1024-1082 | what payload numbers become: 0 below zero, 2^32 - 1 from 2^32 on, the whole part in between; an offset becomes the nearest integer, halves away from zero |
| `ServoBus.CalibrationStatusIsTrue` | rust/so101_impedance_ctrl/src/control.rs:1024-1060 | if acknowledgements are honest, status 0 means offset and both range limits are in the servo, from any state, torque on or locked, and that it is left limp and unlocked |
| `ServoBus.PidTakesExactlyWhen` | rust/so101_impedance_ctrl/src/control.rs:1071-1079 | if acknowledgements are honest, status 0 means the three coefficients are in the servo if and only if its torque was off and its lock clear; otherwise all three were dropped |
| `ServoBus.OffsetRoundTrip` | rust/so101_impedance_ctrl/src/feetech.rs:113-135 | encoding then decoding a homing offset returns it if and only if its magnitude is below 2048; the encoding is then the magnitude with the sign in bit 11 |
| `ServoBus.ReportedOffsetIsTrue` | rust/so101_impedance_ctrl/src/control.rs:1024-1060 | a reported calibration means the servo holds the rounded offset, which then fits the register |
| `ServoBeliefs.FailedReportCanHideASwitch` | rust/so101_impedance_ctrl/src/control.rs:784-789 | the claim that the believed frame stays exact fails: three lost read-backs report an error although the mode has changed |
| `ServoBeliefs.FrameBeliefStaysRightExactlyWhen` | rust/so101_impedance_ctrl/src/control.rs:784-789 | the exact condition, known before the command is sent: a right belief is sure to stay right, whatever the bus does, if and only if the mode asked for, as the register holds it, has the frame already believed |
| `ServoBeliefs.FrameBeliefAfterwards` | rust/so101_impedance_ctrl/src/main.rs:926-939 | after one run of the command the belief is right if and only if it reported success, or no attempt changed the mode, or the new mode has the same frame |
| `ServoBeliefs.CalibrationBeliefStaysRightExactlyWhen` | rust/so101_impedance_ctrl/src/main.rs:940-952 | the same for the believed offset and range, which the payload replaces on status 0 only: sure to stay right if and only if the command would leave the registers as they are and, should its offset fit, the payload is literally what they hold |
| `ServoBeliefs.FailedReportCanHideACalibration` | rust/so101_impedance_ctrl/src/main.rs:940-952 | a bus that loses only the read-back: the command fails, the servo holds offset 100, and the loop goes on believing 0 |
| `ServoBeliefs.PidStatusCanBeEmpty` | rust/so101_impedance_ctrl/src/control.rs:1071-1079 | a clean bus and a servo with torque on: status 0 and no coefficient taken |
| `ServoBus.ReadBackIsExact` | rust/so101_impedance_ctrl/src/control.rs:747-751 | a motor is listed as still on exactly when one of its read-backs was lost or its torque is on |
| `ServoBus.ReleaseIsSafe` | rust/so101_impedance_ctrl/src/control.rs:719-760 | after `release_all` every motor not listed is de-energised; if all writes land every motor has zero duty and torque off although a duty write re-arms torque; no other motor is touched |
| `ServoBus.ReversedReleaseLeavesTorqueOn` | rust/so101_impedance_ctrl/src/control.rs:719-726 | with the two passes swapped every motor ends energised, even if nothing is lost |
| `ServoErrorLog.IntervalsForBit` | examples/analyze_servo_error_log.py:132-153 | the loop over the log yields `Intervals`, with open ends for bits still up |
| `ServoErrorLog.ScanKnowsTheBit` | examples/analyze_servo_error_log.py:139-149 | after any time-sorted prefix the scan's open and closed intervals say exactly where each motor's masked byte is up |
| `ServoErrorLog.IntervalsAreExact` | examples/analyze_servo_error_log.py:132-153 | for any time-sorted log: t lies in one of the motor's intervals if and only if its last line at or before t that changes the masked byte left `to & bit` non-zero. So a repeated rise keeps the earlier start and a fall with nothing open is ignored; intervals come in the order they start |
| `ServoErrorLog.UnbrokenLogSaysItAll` | examples/analyze_servo_error_log.py:132-153 | where every line's masked byte continues from the motor's previous one, that is simply the motor's last line |
| `ServoErrorLog.OnlyTheMaskMatters` | examples/analyze_servo_error_log.py:135-138 | two logs whose bytes agree under the mask give the same intervals |
| `ServoErrorLog.QuietLinesCanGo` | examples/analyze_servo_error_log.py:135-138 | a line that leaves the masked byte alone can be dropped |
| `IntervalMerge.Clip` | examples/analyze_servo_error_log.py:249-259 | the loop over the intervals yields `ClipTo` |
| `IntervalMerge.ClipIsExact` | examples/analyze_servo_error_log.py:249-259 | a clipped motor is up at t if and only if t is in the window, before the end of the log and in an interval; pieces have positive length inside the window |
| `IntervalMerge.GroupByMotor` | examples/analyze_servo_error_log.py:165-168 | the dictionary holds each motor's spans in the order given, its keys in the order first met |
| `IntervalMerge.MergePerMotor` | examples/analyze_servo_error_log.py:156-182 | grouping by motor, merging each and sorting yields `Merged` |
| `IntervalMerge.MergeOneMotor` | examples/analyze_servo_error_log.py:173-180 | the pass with `cur` over a motor's sorted spans yields `MergeFrom` |
| `IntervalMerge.MergeIsExact` | examples/analyze_servo_error_log.py:156-182 | merging is exactly the closing of each motor's time by gaps of at most the grace: all input covered, only such gaps filled, all of them filled |
| `IntervalMerge.MergeSeparates` | examples/analyze_servo_error_log.py:156-182 | spans come out in start order, of positive length, and more than the grace apart on each motor |
| `IntervalMerge.MergeIsIdempotent` | examples/analyze_servo_error_log.py:156-182 | merging again yields the same set of spans |
| `EpisodeSweep.BuildEdges` | examples/analyze_servo_error_log.py:192-199 | one rise and one fall per span, sorted with falls before rises at the same instant |
| `EpisodeSweep.SweepEdges` | examples/analyze_servo_error_log.py:201-220 | the loop over the edges leaves the state of `SweepTo` |
| `EpisodeSweep.FindEpisodes` | examples/analyze_servo_error_log.py:185-224 | edges, sweep and the closing branch yield `Episodes` |
| `EpisodeSweep.LiveIsHalfDone` | examples/analyze_servo_error_log.py:202-209 | after k edges the live set is exactly the motors with a span risen and not yet fallen |
| `EpisodeSweep.LiveBetweenEdges` | examples/analyze_servo_error_log.py:202-209 | between two edges the loop's live set is the set of motors up |
| `EpisodeCorrectness.EpisodesAreExact` | examples/analyze_servo_error_log.py:185-224 | episodes are disjoint, ordered and of positive length, and an instant is in one if and only if at least n motors are up at it |
| `EpisodeCorrectness.SweepIsExact` | examples/analyze_servo_error_log.py:185-224 | the same with falls and rises of one instant told apart; and no episode is open after the last edge |
| `EpisodeCorrectness.MotorsAreThePeak` | examples/analyze_servo_error_log.py:210-220 | an episode's motors are the whole live set at the first instant inside it at which the most motors are up |
| `EpisodeCorrectness.EpisodesAreMaximal` | examples/analyze_servo_error_log.py:185-224 | no episode can be extended at either end |
| `EpisodeCorrectness.StricterEpisodesNest` | examples/analyze_servo_error_log.py:319-330 | each episode at a stricter threshold lies inside a single episode at a looser one |
| `CollapseCount.SweepThresholds` | examples/analyze_servo_error_log.py:271-274 | one row per threshold, each the long enough episodes of that threshold, for any test of length |
| `CollapseCount.KeepLong` | examples/analyze_servo_error_log.py:273 | the comprehension that drops episodes shorter than `min_ms` |
| `CollapseCount.LongEnoughIsKept` | examples/analyze_servo_error_log.py:273 | with the comparison done without rounding, an episode is kept if and only if it lasts at least `min_ms` milliseconds |
| `CollapseCount.TotalIsACount` | examples/analyze_servo_error_log.py:319-330 | durations of ordered episodes sum to the number of instants they cover |
| `CollapseCount.TotalNeverRises` | examples/analyze_servo_error_log.py:315-318 | the stated theorem for exact totals: after dropping short episodes, by any test that keeps what is longer than something kept, requiring one more motor never increases the total time |
| `CollapseCount.RowTotalsNeverRise` | examples/analyze_servo_error_log.py:271-274 | so the exact totals of the table never rise from row to row |
| `CollapseCount.TotalIsTimeEnoughAreUp` | examples/analyze_servo_error_log.py:185-224 | for any separated spans: before short episodes are dropped, the total for n motors is exactly the number of instants at which at least n are up |
| `PrintedTotals.TotalEverRises` | examples/analyze_servo_error_log.py:357-366 | the report's loop finds a rise exactly when some printed total is above the one before |
| `PrintedTotals.TenthsAreNearest` | examples/analyze_servo_error_log.py:319-330 | the printed tenths are the nearest ones, even at a tie, and no others |
| `PrintedTotals.RiseOnlyAtATie` | examples/analyze_servo_error_log.py:319-330 | a printed total, the rounded value of a sum within eps of the exact one, can rise only if both exact totals are within eps of one and the same value halfway between two tenths |
| `PrintedTotals.RiseIsPossibleExactlyWhen` | examples/analyze_servo_error_log.py:319-330 | and some sums within eps of two exact totals in order do print in the wrong order if and only if the extreme ones do |
| `DoubleSums.SumIsNear` | examples/analyze_servo_error_log.py:319-330 | adding up to 2^50 rounded durations from left to right, each operation within 2^-53 of exact, relatively, and with or without compensation, lands within 3(n+1)/2^53 of the exact total, relatively |
| `PrintedTotals.WarningOnlyAtATie` | examples/analyze_servo_error_log.py:357-366 | with such sums the "total rose" warning is printed only for two rows whose exact totals are both within that error of one tie |
| `RelayLog.WarningIsReachable` | examples/analyze_servo_error_log.py:315-318 | a log of six lines for which the table check finds a rise, with the default minimum length: both exact totals are 200.35 ms, and the doubles print as 200.3 and 200.4 |
| `RelayLog.RelayDoubles` | examples/analyze_servo_error_log.py:109-115 | the doubles nearest to the three durations and to the sum of two of them, and what they round to |
| `RelayLog.RelaySumsAreDoubleSums` | examples/analyze_servo_error_log.py:319-330 | plain left-to-right addition of rounded durations can give those two sums |
| `PrintedTotals.Analyse` | examples/analyze_servo_error_log.py:262-274 | from any time-sorted log and window to the rows, the printed totals and the warning; with sums added in doubles, no warning if no exact total, the last row's aside, is within the sums' error of a tie |
| `CollapseCount.CollapseTimeIsExact` | examples/analyze_servo_error_log.py:262-274 | from any time-sorted log to the number: with no minimum length, the total for n motors is exactly the number of instants of the window at which at least n motors hold the masked bit, dips of at most 2.5 ms counting as held |
| `Clutch.ClutchDevice.Engage` | examples/isaac_teleop_to_so101/isaac_teleop/clutch.py:73-93 | home and origin are latched: measured position if given, last commanded orientation, the current grip |
| `Clutch.EngagingMovesNothing` | examples/isaac_teleop_to_so101/isaac_teleop/clutch.py:67-102 | with the hand where it was, the first target after engaging keeps the orientation last commanded, at the measured position, or at the last commanded one without a measurement |
| `Clutch.ClutchDevice.Rebase` | examples/isaac_teleop_to_so101/isaac_teleop/clutch.py:95-102 | the commanded pose is home plus the grip's displacement, and the grip's rotation since the origin times home; it is remembered |
| `Clutch.HoldLatch.Resolve` | examples/isaac_teleop_to_so101/common.py:122-129 | an action passes and clears the latch; without one the pose latched first is returned |
| `Clutch.Teleop.Compute` | examples/isaac_teleop_to_so101/common.py:371-408 | one frame of the engage-edge logic around the clutch |
| `Clutch.Teleop.Step` | examples/isaac_teleop_to_so101/teleoperate.py:97-98 | one frame of the loop: `compute` then `resolve` |
| `Clutch.Run.OrientationIsTheProduct` | examples/isaac_teleop_to_so101/isaac_teleop/clutch.py:31-59 | over every run: the commanded orientation is the ordered product of each stretch's controller rotation applied to the startup orientation, in any group |
| `Clutch.Run.NoJumpAtTheEdge` | examples/isaac_teleop_to_so101/isaac_teleop/clutch.py:50-59 | on an engage edge the target has the orientation last commanded and the measured position |
| `Clutch.Run.TargetFollowsTheHand` | examples/isaac_teleop_to_so101/isaac_teleop/clutch.py:44-49 | within a stretch the position is the measured start plus the grip's displacement, and the orientation that before the stretch turned by the controller's rotation |
| `Clutch.Run.LatchedAtTheEdge` | examples/isaac_teleop_to_so101/common.py:383-396 | throughout a stretch the clutch holds what it latched on the stretch's first frame |
| `Clutch.Run.IdleHoldsTheFirstPose` | examples/isaac_teleop_to_so101/common.py:109-129 | every action sent in an idle stretch is the pose measured on its first idle frame |
| `PontineRelay.Relay.Tick` | rust/so101_impedance_ctrl/src/pontine.rs:64-93 | each channel becomes its low-passed value, or keeps its state on a non-finite sample; an override replaces both |
| `PontineRelay.StateStaysInTheHull` | rust/so101_impedance_ctrl/src/pontine.rs:64-93 | over any run with dt >= 0: the state is in every interval that holds its start and the finite inputs seen |
| `PontineRelay.NonFiniteLeavesNoTrace` | rust/so101_impedance_ctrl/src/pontine.rs:81-90 | removing a non-finite sample from a run does not change where it ends |
| `PontineRelay.NoTimeConstantNoFilter` | rust/so101_impedance_ctrl/src/pontine.rs:73-90 | without a time constant the relay carries the last finite sample it was given, whatever it carried before |
| `PontineRelay.ConstantInputIsApproached` | rust/so101_impedance_ctrl/src/pontine.rs:73-80 | under a constant input and positive tau, the signed distance to it is the initial one times the product of tau/(tau+dt), a number in (0, 1]: no overshoot |
| `SplineRecorder.PosesAndArraysAgree` | examples/omx/reset_environment.py:119-124 | `pose_to_array` and `array_to_pose` are inverse to each other |
| `SplineRecorder.LargestUpTo` | examples/omx/reset_environment.py:163 | an upper bound on the joint deltas that, when positive, one of them attains |
| `SplineRecorder.MaxDistanceIs` | examples/omx/reset_environment.py:163 | the distance of a move is the largest over all six joints, both ways |
| `SplineRecorder.MoveToPose` | examples/omx/reset_environment.py:157-173 | nothing is sent below half a unit; otherwise the last action is the target, each lies between the two poses in every joint, and level poses are joined by level actions |
| `SplineRecorder.BlendStaysLevel` | examples/omx/reset_environment.py:20-21 | linear interpolation keeps the gripper parallel to the ground |
| `SplineRecorder.FramesOfAMove` | examples/omx/reset_environment.py:167 | a move of half a unit or more takes the largest whole number of frames that fits at the speed asked for, and at least one |
| `SplineRecorder.MoveSpeed` | examples/omx/reset_environment.py:167-170 | "at the given speed" is met if and only if that speed covers the distance in a whole number of frames; a move shorter than one frame at that speed is slower, any other is faster by less than a factor of two |
| `SplineRecorder.MoveSpeedMissesBothWays` | examples/omx/reset_environment.py:157-173 | half a unit asked at 100 units/s is driven at 15, three units asked at 50 at 90 |
| `SplineRecorder.TimeSegments` | examples/omx/record_grab.py:166-173 | frames and duration of each segment, none for a segment below half a unit |
| `SplineRecorder.StepsToAt` | examples/omx/record_grab.py:166-173 | each segment is timed by its own length and its own speed |
| `SplineRecorder.PlanVelocities` | examples/omx/record_grab.py:176-181 | the mean of the adjacent segment velocities at inner waypoints, zero at both ends |
| `SplineRecorder.DriveSegment` | examples/omx/record_grab.py:184-203 | the frames of one segment are its Hermite points at t = 1/n, ..., 1 |
| `SplineRecorder.PlanSpline` | examples/omx/record_grab.py:163-181 | the plan has the waypoints, the frames and durations and the velocities the spline needs |
| `SplineRecorder.RecordEpisodeSpline` | examples/omx/record_grab.py:147-207 | what is sent is the planned spline; level waypoints give level actions; the record ends on the last waypoint unless the last segment is skipped |
| `SplineRecorder.Plan.SegmentEndsOnItsWaypoint` | examples/omx/record_grab.py:184-199 | each segment that is not skipped starts at its first waypoint and its last frame is exactly its second |
| `SplineRecorder.Plan.RecordEndsOnAWaypoint` | examples/omx/record_grab.py:184-207 | the record ends on the waypoint behind the last segment that moved |
| `SplineRecorder.Plan.FramesSampleTheMotion` | examples/omx/record_grab.py:192-199 | frame k is where the continuous motion is after k/fps seconds |
| `HermiteSegment.OnlyOneVelocity` | examples/omx/record_grab.py:190-198 | a motion has at most one velocity at an instant |
| `HermiteSegment.SegmentVelocities` | examples/omx/record_grab.py:190-198 | a segment leaves with its first planned velocity and arrives with its second, as derivatives in time |
| `SplineRecorder.Plan.VelocitiesAreDriven` | examples/omx/record_grab.py:175-199 | the velocities of a moved segment at its ends are the planned ones and no others |
| `SplineRecorder.Plan.SegmentTakes` | examples/omx/record_grab.py:166-173 | a segment takes as many seconds as it has frames at the recording's rate |
| `SplineRecorder.Plan.PlannedVelocity` | examples/omx/record_grab.py:175-181 | whatever the timing: between two moved segments twice the planned velocity times both durations is each chord times the other's duration, added; beside one skipped segment it is half the other's mean; zero between two skipped ones and at both ends |
| `SplineRecorder.Plan.EvenTimingIsCatmullRom` | examples/omx/record_grab.py:175-181 | where both neighbouring segments take equally long, the planned velocity is the slope of the chord between the neighbouring waypoints |
| `SplineRecorder.Plan.SteadyMotionIsStraight` | examples/omx/record_grab.py:184-199 | a joint planned to arrive and leave at the mean velocity of the segment moves in a straight line at that speed |
| `SplineRecorder.Plan.JoinIsSmoothExactlyWhen` | examples/omx/record_grab.py:156-161 | "C1 continuity at every waypoint" holds where two moved segments meet; over skipped segments it holds if and only if the waypoints coincide and the mean velocities agree |
| `SplineRecorder.SkippingBreaksTheCurve` | examples/omx/record_grab.py:156-161 | waypoints for which that continuity fails |
| `SplineRecorder.Plan.StartIsAtRestExactlyWhen` | examples/omx/record_grab.py:158-161 | the record starts at rest if and only if the first segment is not skipped |
| `SplineRecorder.Plan.StopIsAtRestExactlyWhen` | examples/omx/record_grab.py:158-161 | the record stops at rest if and only if the last segment is not skipped |
| `SplineRecorder.Plan.EveryFrameIsLevel` | examples/omx/reset_environment.py:20-21 | with wrist_flex + shoulder_lift + elbow_flex equal to the offset at every waypoint, it is so in every commanded frame |
| `VramFit.Collect` | examples/measure_act_vram_scaling.py:149-157 | points are the measurements up to the first failure |
| `VramFit.DenominatorIsPositiveExactlyWhenBatchesDiffer` | examples/measure_act_vram_scaling.py:169 | the denominator is never negative, and positive if and only if two batch sizes differ |
| `VramFit.FitExistsExactlyWhen` | examples/measure_act_vram_scaling.py:159-170 | a line is printed if and only if all peaks are numbers and two batch sizes differ; with all numbers and at least two points, the fit divides by zero if and only if no two differ |
| `VramFit.FitIsTheOnlyBestLine` | examples/measure_act_vram_scaling.py:162-170 | the closed form has the least sum of squared residuals of all lines, and no other line attains it |
| `VramFit.ReportIsTheLargestExactlyWhen` | examples/measure_act_vram_scaling.py:175-177 | the reported batch is the largest that fits on the line if and only if the slope is positive and the usable memory is at least the intercept |
| `VramFit.ReportedOnAFallingLine` | examples/measure_act_vram_scaling.py:175-177 | on a falling line every batch above the reported one fits and none below it does |
| `VramFit.ReportCanMislead` | examples/measure_act_vram_scaling.py:175-177 | a card below the intercept, and a falling line, for which the reported batch is not the largest that fits |
| `VramFit.BatchTable` | examples/measure_act_vram_scaling.py:173-177 | one entry per capacity, for its size times the usable fraction: on a rising line the largest batch that fits, or 0; on a falling one where the line starts to fit; a division by zero exactly on a flat line |

## Left out

- f32 rounding, NaN and infinities in the control law, and the huge inputs on which `wrapped_delta` would not terminate: reals stand for f32. Only the relay and the memory script, which test for them, have non-finite values.
- Memory reordering: the seqlock and the command channel interleave at word granularity under sequential consistency, which is what the fences are there to give. They are state machines rather than methods, because a method cannot be interrupted.
- CommandChannel.CommandsAreAppliedExactlyOnce: for clients that write only when nothing is outstanding; the one shipped does not look. `motor_id as u8` in the returned command is not modelled: all fields are whole words.
- ServoBus.ReportedOffsetIsTrue: says nothing about the two range limits, because `write_calibration` reads back the offset only; `ServoBus.CalibrationStatusIsTrue` has them under the assumption that no acknowledgement comes from a request that never arrived.
- ServoBus.Bus.ReleaseAll: logging is dropped; the list of motors still on is returned instead of printed.
- SoftLimits.RecoveryNeverLosesGround: assumes a plant that moves the way it is commanded, by no more than the remaining way back; gravity and overshoot are not modelled.
- PositionGate.DirectDriftIsBounded: is about offers; ticks without a readable batch do not reach the gate.
- PrintedTotals.Analyse: double arithmetic is modelled by its relative error, 2^-53 for each operation, not bit by bit; the comparison with `min_ms` is any test that keeps what is longer than something kept.
- CollapseCount.CollapseTimeIsExact: `parse_window` and the log's regular expressions are not modelled, windows and transitions are inputs.
- EpisodeSweep.FindEpisodes: takes spans with known ends; the sweep's reading of open ends cannot be reached after `clip`.
- Clutch.Teleop.Step: the joint pipeline behind the clutch, its rate limiter and inverse kinematics are not modelled; the action of an engaged frame is the pose handed to it. Rotations are any group and forward kinematics any function of the joints.
- SplineRecorder.RecordEpisodeSpline: sleeping, observations and the dataset are dropped; the actions sent are the result. Missing joint names, too few speeds and a zero speed raise in the script and are preconditions here.
- SplineRecorder.MoveSpeed: frame counts are truncated exact quotients; a double just below a whole number loses a frame.
- VramFit.BatchTable: card sizes and peaks are exact reals; a double just below a whole number reports one batch less.
- Serial framing, timeouts, sleeps, `SCHED_FIFO` set-up and the startup configuration: transport.
- The cerebellum network, its shaders and the impedance law's gains, the tendon inhibition, `MovingAverage` and `joint_pwm_caps`: one-branch arithmetic or not part of this model.
- The random poses and jitter of the grab scripts: waypoints are inputs.
- Dataset, policy, training, camera and cluster scripts: thin layers over libraries that are not part of this model.
