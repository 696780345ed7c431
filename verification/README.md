# Verified model of residual-fusion training data and the rover's failsafe and motor code

This project models four parts of the repository in Dafny and proves what they keep for every
input and every run.

**Training windows and labels.** `Preparation`, `Frames`, `Windows`, `Split` and `WindowSequence`
model how the table of one control axis is sorted and masked, its mission/pair groups, the
train/validation split, the materialising window builder and the streamed window sequence. The
sequence is a class whose `order` array is shuffled in place (`Shuffle`) and whose batches are
uninitialised arrays filled group by group. The proofs say that the streamed batches are the
materialised windows row for row, that every target row carries the label that minimises its own
loss, that every epoch serves every window once after any number of shuffles, and that splitting
before windowing leaks nothing, from the raw table on.
`GateTarget` models the alpha label, the Huber loss and the reachability filter; `Alignment` the
pairing on normalised time and the labels it stores; `Preprocess` the cleaning of the interleaved attack table.

**Rover failsafe and modes.** `RoverModel` gives every operation of the arming, mode and failsafe
state as a function of the state before; `RoverObject` holds the class whose methods update the
fields step by step and are proved against those functions; `RoverRules` says what each step does in
terms of readings, parameters and mode names alone; `RoverRuns`, `FailsafeRuns` and `EkfCounter`
prove what holds over whole runs, in which EKF checks, mode changes, failsafe calls,
battery failsafes, arming, disarming and the safety switch occur in any order.

**Rover motor output.** `MotorsModel`, `ThrustCurve` and `MotorsObject` model the slew limiter, the
steering channel, the skid mixer, the omni loop and the thrust curve; `ManualMode` the pilot input
that feeds them, through to the steering servo; `SlewRuns` the limiter over many iterations.

Conventions. Floats are `real`. `millis()` is true time modulo 2^32. A `uint8_t` failsafe mask is
the set of its bit numbers; the `uint8_t` count wraps explicitly. Sensor predicates, the verdicts of
library checks, the random draws of the shuffle, the square root and the library sorts are
arguments: a sort on one column is any function that returns an ordered permutation (the library's
default is not stable); the sort of the whole attack table by axis, mission, pair and time is likewise
any ordered permutation, whatever the order of the names, while the two-column sort of the raw log is
modelled as the stable one it is. The masks and the steps that rewrite value columns are arguments
too. Sensor readings do not change inside one call. The safety switch and the soft-armed refresh of
`ahrs_update` are separate events, so a run may act on a stale soft-armed state between them; before the
first refresh a vehicle that needs no arming is armed but not soft-armed.

Where code and comments differ, the model follows the code:

- `set_throttle` is documented for -100 to 100 but clamps to the configured maximum before that
  parameter has been sanitised; `SlewRuns.RangeKeptExactlyWhen`, its form for bounded loop times and
  `ManualMode.FollowsStickExactlyWhen` say exactly when this is harmless.
- `ekf_over_threshold` is commented as "two of three variances", but also reports true whenever the
  position estimate is not usable.
- The omni loop divides by the largest demand seen so far, not by the largest demand;
  `MotorsModel.OmniRatioExactlyWhen` says when the ratio of two motors survives.
- A pilot steer type outside the listed values flips with the throttle stick but is not corrected
  for the slew limiter.
- The reachability filter ignores the alpha cap; `GateTarget.FilterMatchesCapExactlyWhen` says that
  it matches the capped label only for a cap of one.
- The EKF failsafe keeps an armed rover out of position modes only while the entry guards are on:
  they follow the soft-armed state, which the safety switch clears, and arming with all checks
  disabled skips `gps_checks`. `RoverRuns.RunSafeExactlyWhenBypassFree` gives the exact steps.

## Model

| member | source | states |
|---|---|---|
| `EkfCounter.CountIsMaxSuffixExcess` | simulator/APMrover2/ekf_check.cpp:44-79 | while no stretch of checks has ten more over-threshold than good ones, the flag is down and the saturating count is the largest suffix excess |
| `EkfCounter.FlagRaisedExactlyWhen` | simulator/APMrover2/ekf_check.cpp:45-64 | from a quiet history the flag goes up at exactly the check completing such a stretch, with the count at ten |
| `EkfCounter.FlagClearsAtTenthGood` | simulator/APMrover2/ekf_check.cpp:65-79 | once up, the flag falls at the tenth good check and no sooner, however many over-threshold checks come between |
| `RoverObject.Rover.constructor` | simulator/APMrover2/Rover.cpp:25-38 | the initial state of every run |
| `RoverObject.Rover.SetControlMode` | simulator/APMrover2/system.cpp:235-275 | succeeds exactly when already in the mode or entry is allowed; a refusal leaves the state as it was |
| `RoverObject.Rover.ArmMotors` | simulator/APMrover2/system.cpp:332-350 | arming succeeds exactly when not armed and the enabled checks pass, and refreshes the soft-armed state |
| `RoverObject.Rover.DisarmMotors` | simulator/APMrover2/system.cpp:355-369 | disarming, with the optional forced safety switch |
| `RoverObject.Rover.RefreshSoftArmed` | simulator/APMrover2/APMrover2.cpp:144-149 | soft-armed is armed and safety switch not disarmed |
| `RoverObject.Rover.FailsafeEkfEvent` | simulator/APMrover2/ekf_check.cpp:144-171 | raises the failsafe once and forces Hold out of position modes unless the action is disabled |
| `RoverObject.Rover.FailsafeEkfOffEvent` | simulator/APMrover2/ekf_check.cpp:174-185 | clears the failsafe and nothing else |
| `RoverObject.Rover.CheckEkf` | simulator/APMrover2/ekf_check.cpp:27-83 | the whole check: early exits, reset, counting, raising, clearing |
| `RoverObject.Rover.TriggerFailsafe` | simulator/APMrover2/failsafe.cpp:46-107 | masks, start time, firing condition, mission continuation and fallback |
| `RoverObject.Rover.NestedFallback` | simulator/APMrover2/failsafe.cpp:81-104 | the nested ifs try the listed modes in order and stop at the first success |
| `RoverObject.Rover.HandleBatteryFailsafe` | simulator/APMrover2/failsafe.cpp:109-142 | the fall-through switch tries the same modes in the same order; terminate disarms |
| `RoverObject.FallbackChainsAgree` | simulator/APMrover2/failsafe.cpp:81-142 | both chains leave equal rovers equal exactly unless the action is to terminate and they are armed |
| `RoverObject.Rover.Perform` | simulator/APMrover2/APMrover2.cpp:45-106 | each event of a run, the soft-armed refresh included, is handled by its method as the step function says |
| `RoverObject.PerformRun` | simulator/APMrover2/APMrover2.cpp:138-149 | a rover taken through any run ends in the state the run lemmas describe |
| `RoverRuns.EveryRunKeepsInv` | simulator/APMrover2/ekf_check.cpp:27-185 | in every run the failsafe flag equals the counter's flag, the count stays within 0..10, acted-on bits are pending |
| `RoverRuns.OverThresholdExactlyWhen` | simulator/APMrover2/ekf_check.cpp:86-141 | over threshold: check enabled, and two of three variances high or no usable position; arming only makes it stricter |
| `RoverRuns.StepBreaksSafetyExactlyWhen` | simulator/APMrover2/mode.cpp:20-39 | a step puts an armed rover under EKF failsafe into a position mode exactly when its bypass guard holds |
| `RoverRuns.RunSafeExactlyWhenBypassFree` | simulator/APMrover2/system.cpp:235-275 | a run is safe throughout if and only if it has no bypassing step |
| `RoverRuns.EkfFailsafeKeepsOutOfPositionModes` | simulator/APMrover2/AP_Arming.cpp:43-69 | with gps_checks at arming (or arming not required and ahrs_update run first) and the safety switch never pressed, no run is ever armed, failsafed and in a position mode |
| `RoverRuns.SoftArmedIsArmed` | simulator/APMrover2/APMrover2.cpp:144-149 | without safety-switch presses soft-armed and armed agree in every run, where no arming is required from the first refresh on |
| `RoverRuns.PositionModeEntryHasPosition` | simulator/APMrover2/mode.cpp:20-41 | whatever step enters a position mode while armed, the EKF had an absolute position and no failsafe |
| `RoverRules.EntryAllowedExactlyWhen` | simulator/APMrover2/mode.cpp:20-52 | for every mode: entry succeeds exactly when the mode is ready and, soft-armed, the estimates suffice; only Manual, Acro, Steering and Hold do without a position |
| `RoverRules.ModeChangeIs` | simulator/APMrover2/system.cpp:235-275 | a successful change sets mode and reason, a refused or idle one nothing |
| `RoverRules.ArmsExactlyWhen` | simulator/APMrover2/AP_Arming.cpp:43-69 | arming succeeds exactly when not armed and the enabled checks pass, spelled out for modes needing an estimate |
| `RoverRules.DisarmingAndSafety` | simulator/APMrover2/system.cpp:355-369 | what disarming, the safety switch and the soft-armed refresh leave |
| `RoverRules.EkfCheckForcesHoldExactlyWhen` | simulator/APMrover2/ekf_check.cpp:144-171 | an EKF check changes the mode exactly when it raises the failsafe in a position mode with the action enabled, and then to Hold |
| `RoverRules.PendingExactlyWhen` | simulator/APMrover2/failsafe.cpp:48-53 | a failsafe is pending after a run exactly when the last call that named it turned it on |
| `RoverRules.TriggerChangesModeExactlyWhen` | simulator/APMrover2/failsafe.cpp:66-107 | a call changes the mode exactly when it fires, the mission does not go on and the fallback of the action is another mode |
| `RoverRules.BatteryFallsBack` | simulator/APMrover2/failsafe.cpp:109-142 | terminate disarms, every other action ends in its fallback mode |
| `FailsafeRuns.FlagFollowsHistory` | simulator/APMrover2/ekf_check.cpp:35-79 | over whole runs the flag and count are explained by the checks logged since the last reset or clearing |
| `FailsafeRuns.ResetExactly` | simulator/APMrover2/ekf_check.cpp:30-42 | a check while disarmed or disabled clears count, flag and failsafe and nothing else; without an origin nothing changes |
| `FailsafeRuns.QuietAfterReset` | simulator/APMrover2/ekf_check.cpp:36-64 | however a run goes on after such a check, no failsafe is raised before ten more checks |
| `FailsafeRuns.CountIsMaxExcessOfLog` | simulator/APMrover2/ekf_check.cpp:44-79 | in a run, with the flag down, the count is the largest suffix excess of the log |
| `FailsafeRuns.FailsafeRaisedExactlyWhen` | simulator/APMrover2/ekf_check.cpp:45-64 | in a run, a counting check raises the failsafe exactly when some suffix of the log reaches ten |
| `FailsafeRuns.FailsafeClearedExactlyWhen` | simulator/APMrover2/ekf_check.cpp:65-78 | in a run, a counting check clears the failsafe exactly when it is the tenth good one since the flag rose |
| `FailsafeRuns.EpisodeStart` | simulator/APMrover2/failsafe.cpp:48-57 | pending bits have been pending since one call, before which there were none and at which the start time was taken |
| `FailsafeRuns.ElapsedWraps` | simulator/APMrover2/failsafe.cpp:67-67 | the 32-bit difference is the true elapsed time modulo 2^32 |
| `FailsafeRuns.FiringNeedsPersistentFailsafe` | simulator/APMrover2/failsafe.cpp:46-72 | an action fires only in an episode uninterrupted since its start call and longer than the timeout |
| `FailsafeRuns.FiresExactlyWhen` | simulator/APMrover2/failsafe.cpp:63-71 | a call that leaves something pending fires exactly when the episode has outlasted the timeout, the rover is not returning or holding, and nothing acted on is still pending |
| `FailsafeRuns.ActedOnBitsClearBeforeNextFiring` | simulator/APMrover2/failsafe.cpp:63-70 | between two firings every bit the first acted on is seen cleared at some call |
| `FailsafeRuns.ActedOnExactlyWhen` | simulator/APMrover2/failsafe.cpp:63-72 | a failsafe counts as acted on exactly when some firing found it pending and it has stayed pending since |
| `FailsafeRuns.FallbackPicksFirstReachable` | simulator/APMrover2/failsafe.cpp:81-142 | a fallback ends in its first active or enterable mode; Hold is never refused; staying put changes nothing |
| `ThrustCurve.RadicandNonNegative` | simulator/APMrover2/AP_MotorsUGV.cpp:846-849 | the radicand is never negative and lies between the two squares |
| `ThrustCurve.CurveRootSolves` | simulator/APMrover2/AP_MotorsUGV.cpp:846-849 | the root taken lies in [0,1] and solves the thrust equation |
| `ThrustCurve.ScaledInvertsThrust` | simulator/APMrover2/AP_MotorsUGV.cpp:825-850 | with the curve on, the thrust of the scaled value is the input's share of the range above the minimum, and the sign is kept |
| `ThrustCurve.ScaledStrictlyIncreasing` | simulator/APMrover2/AP_MotorsUGV.cpp:825-850 | curve on or off, the map is strictly increasing on [-100,100] and stays there |
| `ThrustCurve.ScaledInRange` | simulator/APMrover2/AP_MotorsUGV.cpp:825-850 | within +-100 with the curve on or off |
| `ThrustCurve.CurveOffIsLinear` | simulator/APMrover2/AP_MotorsUGV.cpp:833-844 | with the curve off, zero stays zero and a throttle becomes the minimum plus its share of the rest, with its sign; unchanged without a minimum |
| `ThrustCurve.ScaledIsOdd` | simulator/APMrover2/AP_MotorsUGV.cpp:825-850 | forwards and reverse mirror each other |
| `ThrustCurve.CurveSaturates` | simulator/APMrover2/AP_MotorsUGV.cpp:848-849 | beyond full throttle the curve gives full throttle |
| `MotorsModel.SlewLimitedMeans` | simulator/APMrover2/AP_MotorsUGV.cpp:212-220 | a request within one step of the previous throttle passes, any other stops one step short; a rate of zero or less is no limit |
| `MotorsModel.LimitsMean` | simulator/APMrover2/AP_MotorsUGV.cpp:815-822 | the four limit flags |
| `MotorsModel.UnscaledSteering` | simulator/APMrover2/AP_MotorsUGV.cpp:599-604 | without scaling the steering turns around exactly at negative throttle |
| `MotorsModel.OmniDemandMeans` | simulator/APMrover2/AP_MotorsUGV.cpp:688-699 | full throttle, steering or lateral alone demands the motor's factor for it; demands are proportional and add up |
| `MotorsModel.VectoredSteeringProportion` | simulator/APMrover2/AP_MotorsUGV.cpp:576-582 | vectored thrust shrinks steering in inverse proportion to throttle beyond the base |
| `MotorsModel.SpeedScaledSteeringProportion` | simulator/APMrover2/AP_MotorsUGV.cpp:583-598 | speed scaling shrinks steering in inverse proportion to speed and flips it exactly in reverse |
| `MotorsModel.PeakIsPeak` | simulator/APMrover2/AP_MotorsUGV.cpp:695-703 | the running maximum is max(1, all demands so far) |
| `MotorsModel.OmniCommandBounded` | simulator/APMrover2/AP_MotorsUGV.cpp:697-709 | every omni command is within +-1, keeps its sign, and passes unchanged exactly when zero or nothing so far exceeds one |
| `MotorsModel.OmniCommandDivides` | simulator/APMrover2/AP_MotorsUGV.cpp:701-706 | command times running maximum is the demand |
| `MotorsModel.OmniRatioExactlyWhen` | simulator/APMrover2/AP_MotorsUGV.cpp:697-709 | two motors keep the ratio of their demands exactly when the running maximum did not grow between them |
| `MotorsModel.SkidMixBounded` | simulator/APMrover2/AP_MotorsUGV.cpp:651-668 | commands within +-1, and the larger one uses the full range when the mix saturates |
| `MotorsModel.SkidMixDivides` | simulator/APMrover2/AP_MotorsUGV.cpp:651-668 | left is throttle plus steering and right throttle minus steering, both over the saturation |
| `MotorsModel.SkidMixKeepsRatio` | simulator/APMrover2/AP_MotorsUGV.cpp:659-668 | scaling back keeps the ratio of throttle to steering |
| `MotorsModel.SkidServosBounded` | simulator/APMrover2/AP_MotorsUGV.cpp:652-672 | mixer and thrust curve together keep both servos within +-1000 |
| `MotorsObject.MotorsUGV.SetThrottle` | simulator/APMrover2/AP_MotorsUGV.cpp:186-195 | ignored unless soft-armed, clamped to the configured maximum |
| `MotorsObject.MotorsUGV.SanityCheckParameters` | simulator/APMrover2/AP_MotorsUGV.cpp:440-445 | minimum into 0..20, maximum into 30..100, vector base into 0..100, values already inside kept |
| `MotorsObject.MotorsUGV.SlewLimitThrottle` | simulator/APMrover2/AP_MotorsUGV.cpp:802-812 | the limited throttle is remembered as the next iteration's previous one |
| `MotorsObject.MotorsUGV.OutputRegular` | simulator/APMrover2/AP_MotorsUGV.cpp:572-624 | steering servo, throttle servo and limit flags in every branch |
| `MotorsObject.MotorsUGV.OutputSkidSteering` | simulator/APMrover2/AP_MotorsUGV.cpp:627-673 | left and right servos are the scaled mix, parked when disarmed, untouched without skid steering |
| `MotorsObject.MotorsUGV.OutputOmni` | simulator/APMrover2/AP_MotorsUGV.cpp:676-722 | motor i gets its demand over the maximum of demands 0..i, for any number of motors |
| `MotorsObject.MotorsUGV.Output` | simulator/APMrover2/AP_MotorsUGV.cpp:240-271 | one iteration: soft-armed override, parameter sanity, slew limit, all outputs and the final limit flags |
| `MotorsObject.MotorsUGV.DefaultsPassThrough` | simulator/APMrover2/AP_MotorsUGV.cpp:833-844 | with the default parameters the servos get throttle, skid commands and omni commands unchanged |
| `ManualMode.Update` | simulator/APMrover2/mode_manual.cpp:10-28 | pilot input handed to the motor object without steering scaling |
| `ManualMode.PilotInputMeans` | simulator/APMrover2/mode.cpp:57-98 | every steer type and the lost radio, by number |
| `ManualMode.PilotDesiredMeans` | simulator/APMrover2/mode.cpp:103-116 | the throttle is the slew-limited one, and types 0 and 2 turn the steering around when that changes its sign |
| `ManualMode.PreviewAgreesWithApplied` | simulator/APMrover2/AP_MotorsUGV.cpp:209-220 | from any slew state previewed and applied throttle have the same sign |
| `ManualMode.ServoIsStick` | simulator/APMrover2/AP_MotorsUGV.cpp:599-623 | the two steering flips cancel: the servo gets the clamped stick |
| `ManualMode.ServoOfType` | simulator/APMrover2/mode.cpp:65-115 | what each stick-driven type puts on the servo, in either direction of travel |
| `ManualMode.AppliedIsPreviewed` | simulator/APMrover2/AP_MotorsUGV.cpp:209-220 | within the allowed range the applied throttle is the previewed one |
| `ManualMode.FollowsStickExactlyWhen` | simulator/APMrover2/mode.cpp:57-116 | of the stick-driven types exactly the two reversing ones, with a positive throttle maximum, always follow the stick |
| `ManualMode.PaddlesReachTheMotors` | simulator/APMrover2/mode.cpp:79-90 | two-paddle input and the skid mixer undo each other |
| `ManualMode.ManualIteration` | simulator/APMrover2/mode_manual.cpp:10-28 | one armed Manual iteration, any steer type: servo, throttle and lateral; for the reversing types the servo gets the clamped stick from any slew state |
| `ManualMode.RadioFailureIteration` | simulator/APMrover2/mode.cpp:60-64 | without radio the steering is centred and the throttle slews to zero |
| `ManualMode.ManualRun` | simulator/APMrover2/APMrover2.cpp:50-51 | so does every iteration of any run of Manual iterations |
| `SlewRuns.MovesExactly` | simulator/APMrover2/AP_MotorsUGV.cpp:212-220 | n iterations move the throttle by exactly min(distance, n steps) |
| `SlewRuns.ReachedExactlyWhen` | simulator/APMrover2/AP_MotorsUGV.cpp:212-220 | the target is reached after exactly ceil(distance / step) iterations and never overshot |
| `SlewRuns.HoldTarget` | simulator/APMrover2/AP_MotorsUGV.cpp:240-252 | re-setting a constant target before each output realises that movement; a maximum not yet sane affects the first request only |
| `SlewRuns.OutputsDifferByOneStep` | simulator/APMrover2/AP_MotorsUGV.cpp:802-812 | in every run each output, armed or not, differs from the one before it by at most one slew step |
| `SlewRuns.RunMotors` | simulator/APMrover2/AP_MotorsUGV.cpp:186-271 | the motor object taken through any requests and outputs ends in the state, and puts out the throttles, that the run lemmas speak of |
| `SlewRuns.RangeKeptExactlyWhen` | simulator/APMrover2/AP_MotorsUGV.cpp:186-195 | outputs stay within +-100 in all runs exactly when the configured maximum is within +-100 |
| `SlewRuns.RangeKeptForLoopTimesExactlyWhen` | simulator/APMrover2/AP_MotorsUGV.cpp:212-220 | with bounded loop times a maximum out of range is harmless exactly when one slew step is at most 100 |
| `Windows.MakeLstmWindows` | train_pid_piper_fusion.py:550-586 | the materialised windows, targets and endpoint rows, or the error for short sequences and for no windows |
| `Windows.WindowAt` | train_pid_piper_fusion.py:640-652 | window s of group i is window Start(i)+s overall |
| `Windows.OwnerOf` | train_pid_piper_fusion.py:652-653 | every overall window index has an owning group and start position |
| `Windows.OwnerUnique` | train_pid_piper_fusion.py:652-653 | and only one |
| `Windows.EndpointOfWindow` | train_pid_piper_fusion.py:643-655 | endpoint row j is the last row of window j |
| `Windows.WindowStaysInGroup` | train_pid_piper_fusion.py:627-630 | a window holds consecutive rows of one mission/pair group in time order |
| `Windows.EveryStretchIsAWindow` | train_pid_piper_fusion.py:627-653 | every stretch of consecutive rows of a sorted group is a window: no long group and no window of one is left out |
| `Windows.LongGroupsInKeyOrder` | train_pid_piper_fusion.py:627-655 | long groups keep the order of their keys |
| `Frames.SameGroupExactlyWhen` | train_pid_piper_fusion.py:560-571 | rows share a group exactly when they agree on every grouping column present, none missing |
| `Frames.KeysByFirstRow` | train_pid_piper_fusion.py:570-571 | groups come in the order of their first rows |
| `Preparation.PreparedInOrder` | train_pid_piper_fusion.py:354-412 | the sort by axis, mission, pair and time leaves the rows of one group in time order with growing labels, and the later mask keeps that |
| `Preparation.PreparedLexicographic` | train_pid_piper_fusion.py:396-401 | the prepared table is ordered by axis name, then mission, then pair where present |
| `Preparation.AxisTableInTimeOrder` | train_pid_piper_fusion.py:903-943 | whatever the raw table, the axis table that reaches the split has distinct row labels and every group in time order |
| `Preparation.TableRowIsRaw` | train_pid_piper_fusion.py:903-940 | every row of the axis table is a usable raw row that passed all masks |
| `Preparation.PassingRowIsKept` | train_pid_piper_fusion.py:903-940 | every usable raw row that passes them is in the axis table |
| `Preparation.AxisRefusedExactlyWhen` | train_pid_piper_fusion.py:908-943 | an axis is refused exactly below 200 rows with a target or 200 passing rows |
| `Split.TimeSplit` | train_pid_piper_fusion.py:426-436 | refused exactly for a bad fraction or under 20 rows; otherwise two non-empty parts that concatenate to the rows |
| `Split.SplitIndexIsShare` | train_pid_piper_fusion.py:434-435 | the training part is the floor of its share, at least one row, never all |
| `Split.PartsAreShares` | train_pid_piper_fusion.py:434-436 | validation gets its fraction of the rows rounded up, training the rest and at least one |
| `Split.SplitGateDataframe` | train_pid_piper_fusion.py:531-547 | the per-group split appended in group order, with its errors |
| `Split.GroupedRefusal` | train_pid_piper_fusion.py:427-432 | a refused grouped split names a bad fraction, else a group too small |
| `Split.SidesGroupByGroup` | train_pid_piper_fusion.py:537-547 | both sides list the groups one after the other in table order |
| `Split.SplitPartitionsGroups` | train_pid_piper_fusion.py:537-547 | per group, training rows then validation rows are the group, both non-empty |
| `Split.RowsKeptApart` | train_pid_piper_fusion.py:531-547 | from any raw table: a training and a validation row are different rows, and in time order within a group |
| `Split.NoLeakBetweenWindows` | train_pid_piper_fusion.py:945-991 | from any raw table: training and validation windows share no row, and within a group every training row is no later than every validation row |
| `Split.TrainFirstExactlyWhen` | train_pid_piper_fusion.py:426-436 | without the sort, the split keeps training first at every fraction exactly when the rows are in time order or too few to split |
| `Split.GroupsTrainFirstExactlyWhen` | train_pid_piper_fusion.py:531-547 | the same for the grouped split: exactly when some group is too small or all are in time order |
| `Split.ReversedRowsLeak` | train_pid_piper_fusion.py:426-436 | twenty rows in reverse: cut in the middle, training is later than validation |
| `WindowSequence.SearchSortedRight` | train_pid_piper_fusion.py:677-677 | the position after the last start not above the index |
| `WindowSequence.Create` | train_pid_piper_fusion.py:592-656 | the built sequence indexes exactly the long sorted groups, with every refusal in order |
| `WindowSequence.FillGroup` | train_pid_piper_fusion.py:679-689 | one group's masked slots are written once with their windows, the others untouched |
| `WindowSequence.FillBatch` | train_pid_piper_fusion.py:670-689 | every slot of the uninitialised batch is written exactly once |
| `WindowSequence.LstmWindowSequence.OwningGroup` | train_pid_piper_fusion.py:677-677 | binary search finds the unique group whose windows include the index |
| `WindowSequence.LstmWindowSequence.OnEpochEnd` | train_pid_piper_fusion.py:661-663 | with shuffling the order is exchanged in place as drawn, without it untouched, and it stays a rearrangement of all window indices |
| `Shuffle.EveryOrderCanComeOut` | train_pid_piper_fusion.py:661-663 | every order can come out of a shuffle |
| `WindowSequence.LstmWindowSequence.EachWindowOnce` | train_pid_piper_fusion.py:654-663 | each window index occurs exactly once in the order |
| `WindowSequence.LstmWindowSequence.GetItem` | train_pid_piper_fusion.py:665-691 | batch slot p holds the window of its entry in the order, and its label - with target, PID and ML output under the fused loss - from the endpoint row of that number |
| `WindowSequence.LstmWindowSequence.Epoch` | train_pid_piper_fusion.py:658-691 | the batches of an epoch concatenate to the whole order |
| `WindowSequence.LstmWindowSequence.BatchSizes` | train_pid_piper_fusion.py:658-671 | all batches but the last are full and the last is not empty |
| `WindowSequence.UnshuffledEpochIsTable` | train_pid_piper_fusion.py:550-691 | without shuffling an epoch is, row for row, the materialised windows and endpoint table, and each target row holds the label (and under the fused loss target, PID and ML output) of its endpoint row |
| `WindowSequence.EpochAfterShuffles` | train_pid_piper_fusion.py:658-691 | after any number of shuffles an epoch serves every window exactly once |
| `WindowSequence.FusedEpochTrainsOnLabels` | train_pid_piper_fusion.py:485-520 | under the fused loss, in whatever order windows are served, the label a target row carries has the smallest loss read from that same row |
| `WindowSequence.RejectedExactlyWhen` | train_pid_piper_fusion.py:602-650 | each refusal of the constructor, exactly when |
| `GateTarget.AlphaStarIsTheMinimiser` | train_pid_piper_fusion.py:736-752 | on a stable row alpha_star is the unique minimiser of the fused error over [0, cap] |
| `GateTarget.AlphaStarMinimisesLoss` | train_pid_piper_fusion.py:485-501 | it minimises the unpenalised Huber loss |
| `GateTarget.LossIs` | train_pid_piper_fusion.py:489-500 | the loss is half the square of the error up to one, the error less a half beyond, plus the penalty |
| `GateTarget.HuberSlope` | train_pid_piper_fusion.py:489-497 | the loss is convex and its slope is the error clipped to [-1,1] |
| `GateTarget.PenaltyPullsBelowAlphaStar` | train_pid_piper_fusion.py:498-500 | with a penalty every alpha above alpha_star is strictly worse |
| `GateTarget.BestErrorWithinMargin` | train_pid_piper_fusion.py:736-752 | for any cap the best error is within the margin exactly when the target is within the margin of the reachable outputs |
| `GateTarget.FilterIsBestErrorTest` | train_pid_piper_fusion.py:926-938 | a row passes the reachability filter exactly when the uncapped label's error is at most the margin |
| `GateTarget.FilterMatchesCapExactlyWhen` | train_pid_piper_fusion.py:926-938 | the filter agrees with the capped label on every target exactly when the cap is one |
| `GateTarget.StoredLabelAgrees` | prepare_gate_training_pairs.py:491-495 | capping the stored label gives the constructed label |
| `GateTarget.ConstructContinuous` | train_pid_piper_fusion.py:733-753 | the label array: best alpha on stable rows, zero elsewhere, low-gap rows counted, bad caps refused |
| `GateTarget.LowGapRowsCounted` | train_pid_piper_fusion.py:752-752 | the low-gap count is the number of unstable rows |
| `GateTarget.StableExactlyWhen` | train_pid_piper_fusion.py:738-742 | a row is stable when its gap reaches the configured minimum and the floor of 1e-12 |
| `GateTarget.ConstructStored` | train_pid_piper_fusion.py:733-762 | stored or binary columns: range check only for alpha columns, clip to the cap |
| `GateTarget.StoredColumnTrainsAlike` | train_pid_piper_fusion.py:720-776 | labels stored as align_pair computes them train like the continuous target |
| `Alignment.NormalisedTimeOrder` | prepare_gate_training_pairs.py:143-152 | normalised time is in [0,1], order preserving, 0 and 1 at the ends |
| `Alignment.NormalisedTimeIsShare` | prepare_gate_training_pairs.py:143-152 | normalised time is time since the earliest row as a share of the range |
| `Alignment.CanNormaliseExactlyWhen` | prepare_gate_training_pairs.py:146-151 | normalising is refused exactly when no two timestamps differ |
| `Alignment.NearestIsMinimal` | prepare_gate_training_pairs.py:478-484 | the nearest match has the smallest error of all samples |
| `Alignment.NearestPrefersEarlier` | prepare_gate_training_pairs.py:478-484 | of two equally close samples the earlier one is taken |
| `Alignment.SurvivesExactlyWhen` | prepare_gate_training_pairs.py:485-489 | a row survives the alignment filter exactly when some clean sample is within tolerance, or there is no tolerance and any clean sample |
| `Alignment.RecordedErrorIsMinimal` | prepare_gate_training_pairs.py:485-485 | the recorded error is the minimum over all clean samples |
| `Alignment.KeptExactlyWhen` | prepare_gate_training_pairs.py:485-495 | a row is paired exactly when a sample is close and the controllers are far enough apart |
| `Alignment.StoredLabelsAreBest` | prepare_gate_training_pairs.py:491-495 | every stored alpha lies in [0,1] and no other blend of its row's controllers comes closer to the matched target |
| `Alignment.PairedInTimeOrder` | prepare_gate_training_pairs.py:476-484 | paired rows of an axis come out in normalised time |
| `Alignment.AxisConserved` | prepare_gate_training_pairs.py:464-505 | per axis, attack rows are kept, dropped by alignment or dropped by low gap |
| `Alignment.ReportCounts` | prepare_gate_training_pairs.py:485-503 | each report count is the number of rows kept, unaligned, or aligned with a low gap |
| `Alignment.AlignPair` | prepare_gate_training_pairs.py:462-511 | roll, pitch and yaw in turn, reports that account for every prepared row, output the concatenation, every stored label the best blend for its target |
| `Alignment.PairedTableTrainsAlike` | prepare_gate_training_pairs.py:462-511 | the written table trains on the same labels from its stored alpha column and from its continuous target |
| `Alignment.EndsAlwaysAlign` | prepare_gate_training_pairs.py:143-178 | the first and last attack rows always find a sample at their own normalised time |
| `Preprocess.SortedByClock` | preprocess_two_csv.py:290-296 | the earlier timestamp first, missing ones last, ties roll before pitch before yaw |
| `Preprocess.SortIsStable` | preprocess_two_csv.py:290-296 | rows of one axis with one timestamp keep their order |
| `Preprocess.FirstOccurrencesStay` | preprocess_two_csv.py:456-461 | deduplication keeps every distinct row once |
| `Preprocess.OccurrencesInOrder` | preprocess_two_csv.py:456-461 | and of each the first occurrence, in order |
| `Preprocess.ForwardFillMeaning` | preprocess_two_csv.py:313-317 | each cell becomes the last present value of its column on the same axis at or before that row |
| `Preprocess.FillLooksBackInTime` | preprocess_two_csv.py:313-317 | on the sorted table a filled value was recorded on the same axis at an earlier or equal timestamp, with nothing recorded in between |
| `Preprocess.FillBothMeaning` | preprocess_two_csv.py:318-321 | with both fills a cell gets the last value at or before its row, else the first after it |
| `Preprocess.StillMissingExactlyWhen` | preprocess_two_csv.py:318-321 | after both fills a cell is missing exactly when its column never has a value on that axis |
| `Preprocess.FillNumeric` | preprocess_two_csv.py:299-326 | the in-place fill with a running row per axis computes that fill |
| `Preprocess.AxesDoNotInterfere` | preprocess_two_csv.py:428-527 | cleaning and then taking one axis is cleaning that axis alone, for all options |
| `Preprocess.OutputRowsAre` | preprocess_two_csv.py:467-508 | the output rows are exactly the filled rows that are complete if asked for, with labels kept, clipped or required to be 0 or 1, and all key columns present |
| `Preprocess.OutputInTimeOrder` | preprocess_two_csv.py:510-517 | the output is in time order, at equal times roll before pitch before yaw |
| `Preprocess.PreprocessAttack` | preprocess_two_csv.py:428-527 | the table of the pipeline in time order, and a report whose counts are the rows lost at each stage |

## Left out

- MotorsObject.MotorsUGV.Output: relays of brushed motors, wheel rate control, PWM conversion and the mainsail are hardware or library calls; the servo values here are those before them.
- MotorsObject.MotorsUGV.OutputSkidSteering: wheel rate control and the relays of brushed motors are not modelled.
- MotorsObject.MotorsUGV.SlewLimitThrottle: the limit flags it sets are not stated, because the outputs that follow overwrite them in the same iteration.
- RoverObject.Rover.SetControlMode: exit hooks, fence recovery, telemetry and logging of a mode change, and the mode-local targets an entry hook sets, are not modelled.
- RoverObject.Rover.ArmMotors: the SmartRTL home, simple-mode heading and windvane home recorded on arming only feed libraries not modelled.
- RoverObject.Rover.DisarmMotors: the mission reset outside Auto is not modelled, because mission contents are arguments here.
- RoverObject.Rover.CheckEkf: the throttling of the text warning by `last_warn_time` affects messages only.
- RoverObject.Rover.HandleBatteryFailsafe: terminate is modelled for the default build, in which the advanced failsafe library is compiled out.
- ManualMode.Update: balance bots (pitch control replaces the throttle) and the sailboat mainsail are not modelled.
- ThrustCurve.ScaledInvertsThrust: float rounding and the epsilon of `is_zero` are not modelled; sign and zero tests are exact.
- Windows.MakeLstmWindows: the conversion to 32-bit floats and missing values in the sort column are not modelled.
- Preparation.AxisTableInTimeOrder: missing values in the time column and the scaling of features after the split are not modelled.
- Alignment.AlignPair: trimming of logs by altitude and flight duration and the guessing of angle units happen before it and are heuristics.
- Preprocess.PreprocessAttack: tables have all listed numeric columns; parsing of text to numbers and normalising of angle names are library calls made beforehand, and the counts of duplicates merely detected are not reported.
- The copter and antenna-tracker code, missions, MAVLink handlers, parameter storage, EKF internals, network training and model export: library calls, plumbing, or members that would add only easy claims.
- Crash check and fence check: their mode changes are set_mode steps, which every run lemma already allows at any point.
