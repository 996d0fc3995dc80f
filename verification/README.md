# Verified model of Nidavellir's decision logic

Nidavellir looks for the lowest GPU voltage that is stable at each clock, remembers every
failure durably, checks the GPU with known-answer computations and recovers safely from crashes.
This project models the parts of it that decide, and proves what they promise, in Dafny 4.11.
`dafny verify dfyconfig.toml` checks everything.

| files | part of the system |
|---|---|
| `VoltageFloor`, `FloorGrowth`, `FloorComputation`, `Ledger` | the condemnation ledger and its interpolated voltage floor |
| `Bisection`, `SweepEngine` | the voltage search at one clock, and the sweep over all target clocks |
| `KnownAnswer`, `FrameChecksum`, `QualifierPlan` | the arithmetic the stress battery compares the GPU against, and its time planner |
| `EvidenceLog`, `ApplyGate` | the F2 observation log, its frontiers and the per-run Apply gates |
| `TuningSpace`, `SafeLoop` | the recovery record that survives reboots |
| `CurvePlan` | the fail-closed planners over a V/F curve |
| `MachineInts`, `ModularArithmetic` | fixed-width integers, counting, residues, bit operations |

How it is written. Objects that the program updates in place (`VoltageBisection`,
`GpuSweepEngine`, `SafeLoopRecord`) are classes; each method's postcondition equates the new
state with a function on values, and the results are lemmas about those functions. Loops stay
loops, proved against a definition that does not mention them. Hardware verdicts are an
arbitrary function (or an arbitrary answer sequence).

## Results worth knowing

- **More evidence can lower the floor.** With 1815 MHz at 862 mV and 1875 MHz at 887 mV the floor at
  1845 MHz is 875 mV; a new failure at 850 mV there makes it 862 mV (`FloorGrowth.EvidenceCanLowerFloor`).
  `FloorGrowth.EvidenceRaisesFloorsIff` gives the exact condition, and `Ledger.RefusalsOnlyGrow` the run
  theorem: if every failure happened at a point the ledger had admitted, the refused region only grows.
- **The floor's 64-bit product can overflow on full-range inputs**, and then a condemned pair can be let
  through (`Ledger.OverflowLetsThrough`). `FloorComputation.WrappedFloorExactIff` says exactly when a computed
  floor is right and `Ledger.RefusalExactIff` exactly when the refusals are; voltages below 2^31 mV are always
  fine (`Ledger.PhysicalLogFits`). In a build with overflow checks the same inputs panic instead of wrapping.
- **A wrapped launch count is harmless.** `iters * k` is multiplied with wrap-around in 64 bits, and the
  expected answer is right anyway, because 2^32 rounds of the generator are a whole period.
- **The audit view can show lifted condemnations**, but never hides an enforced one. For one GPU it shows
  exactly what is enforced if and only if whatever was lifted was lifted under its own key
  (`Ledger.AuditExactIff`); `Ledger.AppendKeepsAuditExactIff` is what a writer has to check.
- **Recovery may recede to a blacklisted point**, and the point that trips Safe Mode is not blacklisted, contrary
  to what "blacklist the region and recede" suggests: exact conditions in `SafeLoop.RecedesIntoBlacklistIff` and
  `SafeLoop.CrashPointBlacklistedIff`, histories that do it in `SafeLoop.RecedesToCrashedPoint` and
  `SafeLoop.ThreeCrashesTrip`.
- **A latched Safe Mode is not always hands-off.** A crash boot that does not trip again recedes to the last
  validated point although the record is latched (`SafeLoop.LatchedBootIsStockIff`,
  `SafeLoop.LatchedBootCanRecede`), where the module header promises stock.
- **The Safe Mode phase is left by a hard crash as well as by a reset**, and by nothing else
  (`SafeLoop.SafeModePhaseIff`): a deliberate arm of the transition function, after which a probe can start.
- **The blacklist distance is a metric only below 2^63**: `TuningSpace.DistExactIff`; two points 2^63 apart on one
  axis read as the same point (`TuningSpace.FarPointsReadAsOne`).
- **The anchored curve need not be monotone in voltage**: exact condition in `CurvePlan.AnchoredCurveMonotoneIff`.
- **A validated observation raises a frontier exactly when it also lost the device** too close to the frontier's
  anchor (`EvidenceLog.GoodEvidenceRaisesIff`). The service never writes such a line: it sets the device-loss mark
  exactly on the device-loss outcome (crates/service/src/gpu_f2_sweep.rs:143), and among lines it wrote good
  evidence never raises a frontier (`EvidenceLog.GoodEvidenceNeverRaises`). A device lost during an Apply attempt is
  written, and moves both frontiers (`EvidenceLog.ApplyEvidenceMovesIff`, `EvidenceLog.LostDeviceRetiresFrontiers`).

## Model

| member | source | states |
|---|---|---|
| VoltageFloor.FloorExistsIff | crates/core/src/condemnation.rs:214-217 | there is a floor at a clock exactly when some pair was condemned at or below it |
| VoltageFloor.ReadingsInPairs | crates/core/src/condemnation.rs:202-213 | the running maximum and the two neighbouring clocks are attained by condemned pairs and bounded by all of them |
| VoltageFloor.FloorIsLeastIntegerAbove | crates/core/src/condemnation.rs:197-232 | the floor is the least integer at or above the piecewise-linear interpolation (over the reals) of the running maximum |
| VoltageFloor.FloorCoversEvidence | crates/core/src/condemnation.rs:197-232 | the floor is never below a voltage condemned at or below the clock |
| VoltageFloor.FloorFlatAbove | crates/core/src/condemnation.rs:218-223 | above the highest condemned clock the floor is flat, at the highest condemned voltage |
| VoltageFloor.FloorMonotone | crates/core/src/condemnation.rs:197-232 | a higher clock never has a lower floor |
| VoltageFloor.FloorIgnoresOrder | crates/core/src/condemnation.rs:204 | the floor depends only on which pairs are condemned, not on order or repetition |
| FloorGrowth.HarmlessAt | crates/core/src/condemnation.rs:201-232 | knot insertion: a pair on or above the floor at its own clock lowers the floor at no clock |
| FloorGrowth.EvidenceRaisesFloorsIff | crates/core/src/condemnation.rs:201-232 | a new pair lowers no floor exactly when there is no floor at its clock, it is not below it, or the floor there is already the running maximum |
| FloorGrowth.EvidenceCanLowerFloor | crates/core/src/condemnation.rs:201-232 | a concrete third failure lowers the floor from 875 to 862 mV |
| FloorComputation.BuildEnvelope | crates/core/src/condemnation.rs:202-213 | the sort and running-maximum loop yields one ascending knot per condemned clock carrying the running maximum |
| FloorComputation.VfFloorEnvelope | crates/core/src/condemnation.rs:201-232 | the computation returns the floor exactly when the interpolation numerator fits 64 bits |
| FloorComputation.WrappedFloorExactIff | crates/core/src/condemnation.rs:225 | wrapped 64-bit interpolation is right if and only if its numerator is below 2^63 |
| FloorComputation.ComputedNeverAbove | crates/core/src/condemnation.rs:201-232 | the computed floor is never above the floor, and an overflow pushes it below the running maximum |
| FloorComputation.ComputedCoversIff | crates/core/src/condemnation.rs:197-232 | the computed floor covers every pair condemned at or below the clock exactly when it did not overflow |
| FloorComputation.PhysicalFits | crates/core/src/condemnation.rs:202-225 | with voltages below 2^31 mV the computation never overflows, whatever the clocks |
| FloorComputation.FullRangeOverflows | crates/core/src/condemnation.rs:225 | two full-range pairs for which the computed floor is wrong |
| Ledger.BuildCondemnedPairs | crates/core/src/condemnation.rs:144-175 | the scan that looks ahead for a cancelling rehabilitation returns what a left-to-right replay of the log leaves in force |
| Ledger.KeptIsReplay | crates/core/src/condemnation.rs:144-160 | backward-looking cancellation and forward replay keep the same events in the same order |
| Ledger.ForeignLineIgnored | crates/core/src/condemnation.rs:144-160 | an empty ledger condemns nothing, and a line under another GPU's key changes nothing, condemnation or rehabilitation |
| Ledger.OwnCondemnationAdded | crates/core/src/condemnation.rs:148-173 | a condemnation without a key or under this GPU's key adds its pair to the list of its severity, and a quarantine its contract |
| Ledger.OwnRehabilitationLifts | crates/core/src/condemnation.rs:144-160 | a rehabilitation without a key or under this GPU's key removes exactly the pairs equal to its own in clock and voltage |
| Ledger.ContractsParallel | crates/core/src/condemnation.rs:162-172 | the contract list names the quarantined pairs entry by entry |
| Ledger.AuditShowsEnforced | crates/core/src/condemnation.rs:177-195 | every enforced condemnation survives in the audit view, with multiplicity |
| Ledger.AuditViewAppend | crates/core/src/condemnation.rs:177-195 | line by line: a condemnation shows at the end of the audit view, a rehabilitation never shows and hides exactly what has its clock, voltage and key |
| Ledger.AuditExactIff | crates/core/src/condemnation.rs:144-195 | for every log and GPU: the audit view of that GPU is exactly what is enforced if and only if every lifted condemnation has a later rehabilitation under its own key |
| Ledger.AppendKeepsAuditExactIff | crates/core/src/condemnation.rs:144-195 | an exact audit view stays exact after one more line unless that line lifts a live condemnation made under another key |
| Ledger.AuditCanShowLifted | crates/core/src/condemnation.rs:180-195 | a log for which it fails: a keyless rehabilitation lifts a keyed condemnation yet leaves it in the audit view |
| Ledger.CheckRefusal | crates/core/src/condemnation.rs:237-241 | refusal is at or below the rigid floor, or strictly below the quarantine floor |
| Ledger.RefusalExactIff | crates/core/src/condemnation.rs:201-241 | the computed refusals at a clock are those of the rule over unbounded integers exactly when a floor that decides them did not overflow |
| Ledger.RefusedIffBelowBoundary | crates/core/src/condemnation.rs:233-241 | refusal against the interpolated boundary over the reals: rigid up to the next whole millivolt above it, quarantine strictly below it |
| Ledger.OverflowLetsThrough | crates/core/src/condemnation.rs:225-241 | two full-range rigid pairs of which one is not refused |
| Ledger.CondemnedIsRefused | crates/core/src/condemnation.rs:12-20 | while the deciding floor did not overflow, a rigid pair and everything below it, and everything strictly below a quarantined pair, is refused at its clock and every higher clock |
| Ledger.RefusalIsMonotone | crates/core/src/condemnation.rs:235-241 | a refused point stays refused at lower voltage and at any higher clock whose deciding floor did not overflow |
| Ledger.HarmlessRunKeepsRefusals | crates/core/src/condemnation.rs:201-241 | from any ledger state on, condemnations harmless to the floor of their own severity keep every refusal of the rule |
| Ledger.RefusalsOnlyGrow | crates/core/src/condemnation.rs:201-241 | from any ledger state on, over lines that condemn only points the ledger had admitted, the refused region only grows |
| Ledger.PhysicalLogFits | crates/core/src/condemnation.rs:201-241 | with voltages below 2^31 mV no floor of the ledger overflows, so both results above hold at every clock |
| Ledger.UnadmittedRunCanShrink | crates/core/src/condemnation.rs:201-241 | without the admission guard three rigid failures un-refuse a point |
| Ledger.DoubleProofIff | crates/core/src/condemnation.rs:243-260 | two passes are required exactly when a quarantine in force on this pair was made under the current, a stronger or an unknown contract, and one pass otherwise |
| Bisection.VoltageBisection.constructor | crates/core/src/gpu_sweep.rs:93-109 | a new search starts at stock with steps of at least 1 |
| Bisection.VoltageBisection.NextTest | crates/core/src/gpu_sweep.rs:112-133 | the mutable search asks for the specified probe and remembers it |
| Bisection.VoltageBisection.Record | crates/core/src/gpu_sweep.rs:136-146 | recording a verdict updates one end of the bracket; a stray verdict changes nothing |
| Bisection.VoltageBisection.IsConverged | crates/core/src/gpu_sweep.rs:149-155 | converged exactly when there is nothing left to probe |
| Bisection.ProbeInNumbers | crates/core/src/gpu_sweep.rs:112-160 | the probe is one descent step below stable but not under the floor, then the rounded-down average of the bracket; none exactly at the floor or within one minimum step |
| Bisection.ProbeInGap | crates/core/src/gpu_sweep.rs:112-133 | probes never go below the floor and lie strictly inside the unexplored gap |
| Bisection.EveryStepKeepsValid | crates/core/src/gpu_sweep.rs:112-146 | for any answer, unstable stays below stable, stable never rises and unstable never falls |
| Bisection.TestSpends | crates/core/src/gpu_sweep.rs:112-146 | whatever the answer, one test uses up part of the remaining budget |
| Bisection.FreshSearchStops | crates/core/src/gpu_sweep.rs:92-156 | any answer sequence ends within ceil((stock-floor)/descent) + k tests when min_step * 2^k covers one descent step |
| Bisection.ResultIsABoundary | crates/core/src/gpu_sweep.rs:71-90 | for any oracle the result is stock or passed a test, and above the floor some voltage within one minimum step below it failed |
| Bisection.CliffAccuracy | crates/core/src/gpu_sweep.rs:71-160 | against a cliff at t the result lies in [t, t + min_step - 1], or is exactly the floor, or stock when stock is at or below the floor |
| Bisection.MoreStableEndsLower | crates/core/src/gpu_sweep.rs:112-146 | two runs of one search: a device stable wherever another is never ends higher |
| Bisection.SearchToCliff | crates/core/src/gpu_sweep.rs:460-478 | the probe/record loop, as the search's own test runs it, ends where the specification settles, within the budget |
| SweepEngine.MarginIsAddedIff | crates/core/src/gpu_sweep.rs:63-70 | the margin is added exactly when the sum fits 32 bits |
| SweepEngine.PickMaxIsLast | crates/core/src/gpu_sweep.rs:190-239 | among equal keys the last point of the table is chosen |
| SweepEngine.ProfilesAreExtremal | crates/core/src/gpu_sweep.rs:190-239 | all three are points of the table; Godforge is the highest clock at its lowest voltage, Brokkr's Best the best MHz per mV, Deep Calm the lowest voltage holding 95% of baseline (Godforge if none does), never above Godforge's voltage |
| SweepEngine.GpuSweepEngine.constructor | crates/core/src/gpu_sweep.rs:335-346 | a new engine is bisecting, with no search and no results |
| SweepEngine.GpuSweepEngine.NextCommand | crates/core/src/gpu_sweep.rs:361-394 | the mutable engine takes exactly the specified step, through any number of converged targets |
| SweepEngine.GpuSweepEngine.Record | crates/core/src/gpu_sweep.rs:404-408 | a verdict goes to the search in progress and nowhere else |
| SweepEngine.GpuSweepEngine.AbortSweep | crates/core/src/gpu_sweep.rs:411-414 | abort drops the search and keeps the results so far |
| SweepEngine.NextKeepsInv | crates/core/src/gpu_sweep.rs:361-394 | every command names the current target at a voltage from the floor up to below stock; Finished comes only when done or aborted |
| SweepEngine.FreshInv | crates/core/src/gpu_sweep.rs:335-414 | over any sequence of asks, answers and aborts: one row per finished target in order, each the end of a converged search for that target under some answers plus margin; profiles only of a complete table, always when done and still after a later abort |
| SweepEngine.AskingAgainRepeats | crates/core/src/gpu_sweep.rs:361-394 | asking again before answering repeats the command and changes nothing |
| SweepEngine.StrayAnswerIgnored | crates/core/src/gpu_sweep.rs:404-408 | an answer nobody asked for is ignored |
| SweepEngine.AbortIsAbsorbing | crates/core/src/gpu_sweep.rs:361-414 | after an abort no operation changes the engine and every command is Finished |
| SweepEngine.EveryRunIsBounded | crates/core/src/gpu_sweep.rs:361-408 | no run of asks, answers and aborts, with any verdicts, tests more than targets * (ceil((stock-floor)/descent) + k) points |
| SweepEngine.DriveSweep | crates/core/src/gpu_sweep.rs:516-552 | driven by any per-frequency oracle, in the loop of the engine's own full-sweep test (no shipped code drives it), the engine finishes with exactly the specified table, in target order, within the test budget |
| SweepEngine.RowAccuracy | crates/core/src/gpu_sweep.rs:373-392 | each row is its cliff plus margin: at least threshold plus margin, at most min_step - 1 above it |
| SweepEngine.TableMonotone | crates/core/src/gpu_sweep.rs:361-394 | over a frontier monotone in frequency the finished table is monotone in frequency |
| KnownAnswer.LcgPow | crates/gpu-stress/src/lib.rs:1371-1390 | square-and-multiply returns the closed form of n rounds: it acts on every seed as the n rounds do |
| KnownAnswer.ClosedFormUnique | crates/gpu-stress/src/lib.rs:1371-1390 | reduced coefficients that act as n rounds are unique |
| KnownAnswer.ClosedFormPredictsKernel | crates/gpu-stress/src/lib.rs:854-868 | a closed form of n rounds predicts n turns of the arithmetic kernel, with its own constants, from every seed |
| KnownAnswer.FullPeriod | crates/gpu-stress/src/lib.rs:854-868 | 2^k rounds of an odd affine step bring every k-bit word back |
| KnownAnswer.ExpectedAfterDispatches | crates/gpu-stress/src/lib.rs:1598-1600 | the expected value equals k launches of iters turns of the arithmetic kernel for every iters and k, even when the product wraps 64 bits |
| KnownAnswer.CorruptedRoundDetected | crates/gpu-stress/src/lib.rs:854-868 | one corrupted round leaves the final value right exactly when the value written was right |
| KnownAnswer.AffinePowMod | crates/gpu-stress/src/lib.rs:1414-1434 | for a power-of-two mask, square-and-multiply under the mask returns the closed form of n links |
| KnownAnswer.LinkInNumbers | crates/gpu-stress/src/lib.rs:1021-1036 | the fill kernel's link, with its own constants, is an affine step modulo the chain length |
| KnownAnswer.LinksDiffer | crates/gpu-stress/src/lib.rs:1015-1022 | no two indices of a power-of-two chain link to the same index |
| KnownAnswer.EveryIndexLinked | crates/gpu-stress/src/lib.rs:1015-1022 | every index of a power-of-two chain is linked to |
| KnownAnswer.ChaseClosedForm | crates/gpu-stress/src/lib.rs:2233-2240 | the expected end of a chase of any length from any start is (A*s + C) & mask |
| KnownAnswer.WrongReadDetected | crates/gpu-stress/src/lib.rs:1015-1055 | one wrong read leaves the end of the chase right exactly when it is right in the masked bits |
| KnownAnswer.WrongInRangeReadDetected | crates/gpu-stress/src/lib.rs:1015-1055 | every single wrong in-range read changes the end of the chase |
| FrameChecksum.Reduce3Checksum | crates/gpu-stress/src/lib.rs:1399-1412 | the nested loops compute the sum of the lane hashes modulo 2^32 |
| FrameChecksum.PositionMatters | crates/gpu-stress/src/lib.rs:1318-1335 | the mixing step is keyed by position: one texel mixes alike at two positions only when they agree modulo 2^32 |
| FrameChecksum.EqualTexelsHashApart | crates/gpu-stress/src/lib.rs:1399-1412 | lanes that read one texel each never agree on equal texels |
| FrameChecksum.KnownChecksum | crates/gpu-stress/src/lib.rs:1399-1412 | a known answer in numbers on three texels and two lanes, one of them striding |
| FrameChecksum.LaneSeesChange | crates/gpu-stress/src/lib.rs:1318-1335 | a lane's hash changes exactly when the changed texel lies on that lane |
| FrameChecksum.OneTexelDetectedIff | crates/gpu-stress/src/lib.rs:1399-1412 | changing exactly one texel changes the checksum if and only if there is at least one lane |
| FrameChecksum.ScheduleDoesNotMatter | crates/gpu-stress/src/lib.rs:1316-1335 | folding the lane hashes in any order gives the same total |
| QualifierPlan.VfQualifierPlan | crates/gpu-stress/src/lib.rs:827-841 | durations sum exactly to the target even when the product saturates; the last segment has at least its exact share and, without saturation, exceeds it by less than one unit per earlier segment |
| EvidenceLog.FirstBadMeaning | crates/core/src/f2_observation.rs:755-765 | first_bad is a failure of the target and no failure lies above it |
| EvidenceLog.KnownBadIff | crates/core/src/f2_observation.rs:785-796 | a point is known bad exactly when the first failure lies at or above it |
| EvidenceLog.KnownBadInObservations | crates/core/src/f2_observation.rs:785-796 | a point is known bad exactly when the log holds one of the eight failure outcomes of its target at or above it, Apply attempts excepted |
| EvidenceLog.BracketMeaning | crates/core/src/f2_observation.rs:767-783 | the bracket exists exactly when both ends do, with no failure above and no validated point inside |
| EvidenceLog.BracketInObservations | crates/core/src/f2_observation.rs:652-783 | the bracket runs from the highest failure to the lowest validated voltage above it, and exists exactly when there are such ends |
| EvidenceLog.CandidateIff | crates/core/src/f2_observation.rs:896-911 | frontier candidates are the current discovery passes above every failure and 12 mV above every crash |
| EvidenceLog.PhysicalInObservations | crates/core/src/f2_observation.rs:896-919 | told on the observations' fields: the physical frontier exists exactly when a current, confirmed, clean, reproducible discovery pass clears every failure and every device loss by 12 mV, and stands at the lowest such pass |
| EvidenceLog.QualifiedInObservations | crates/core/src/f2_observation.rs:921-942 | the qualified frontier likewise, among voltages that also hold a full-strength texture pass under the current qualification contract |
| EvidenceLog.EntryInObservations | crates/core/src/f2_observation.rs:845-892 | an entry reports its target, whether the required pattern is held at its anchor, the highest failure and how many lines the log holds for the target |
| EvidenceLog.EntryWidth | crates/core/src/f2_observation.rs:845-892 | an entry reports the width of the bracket, none when the log lacks one of its ends |
| EvidenceLog.WidthInObservations | crates/core/src/f2_observation.rs:767-783 | the log determines the bracket width: any highest failure and lowest pass above it give the same one |
| EvidenceLog.FrontierIsSafe | crates/core/src/f2_observation.rs:913-942 | both frontiers are not known bad and clear every crash by 12 mV |
| EvidenceLog.QualifiedAbovePhysical | crates/core/src/f2_observation.rs:913-942 | the qualified anchor is never below the physical one; they meet exactly when the physical entry counts every required pattern |
| EvidenceLog.FrontierIgnoresOrder | crates/core/src/f2_observation.rs:896-942 | the anchors depend only on the set of observations |
| EvidenceLog.EntriesIgnoreOrder | crates/core/src/f2_observation.rs:845-942 | reordering the log changes nothing about either frontier entry: anchor, counts, first failure and bracket width |
| EvidenceLog.BadEvidenceNeverLowers | crates/core/src/f2_observation.rs:896-942 | appending a bad observation never lowers a frontier |
| EvidenceLog.GoodEvidenceRaisesIff | crates/core/src/f2_observation.rs:833-942 | appending a validated observation raises a frontier exactly when it also lost the device less than 12 mV below the frontier's anchor, or above it |
| EvidenceLog.GoodEvidenceNeverRaises | crates/service/src/gpu_f2_sweep.rs:89-150 | among lines the service writes, appending a validated observation never raises a frontier |
| EvidenceLog.ApplyEvidenceMovesIff | crates/core/src/f2_observation.rs:757-942 | exact-Apply evidence never lowers a frontier and leaves it in place exactly unless its device loss retires the frontier's anchor |
| EvidenceLog.EntriesFollowEvidence | crates/core/src/f2_observation.rs:913-942 | the same three laws read off the published entries: bad evidence never lowers, good evidence never raises, undisturbed Apply evidence never moves their anchors |
| EvidenceLog.BothFrontiersAt900 | crates/core/src/f2_observation.rs:896-942 | a discovery pass and a qualification pass at 900 mV put both frontiers there |
| EvidenceLog.LostDeviceRetiresFrontiers | crates/core/src/f2_observation.rs:833-942 | a device lost at 895 mV, during an Apply attempt or on a foreign line that claims to have validated, leaves neither |
| ApplyGate.GateP99 | crates/core/src/f2_observation.rs:1096-1203 | the one-pass map returns the highest power among complete runs, or nothing when no run is complete |
| ApplyGate.CompleteRunMeaning | crates/core/src/f2_observation.rs:1151-1203 | a run is complete exactly when it holds an eligible pass of every required pattern and of Endurance; its value is the largest p99 among them |
| ApplyGate.RunInObservations | crates/core/src/f2_observation.rs:1080-1203 | told on the observations' fields: a run is complete exactly when it proves every pattern asked for with a usable reading, its clock held if thermally flagged; its power is its largest such reading |
| ApplyGate.GateInObservations | crates/core/src/f2_observation.rs:1080-1203 | a gate has a value exactly when one run proves everything it asks for; the value is the largest reading among such runs |
| ApplyGate.GateIgnoresOrder | crates/core/src/f2_observation.rs:1155-1203 | two calls of a gate agree on logs holding the same observations |
| ApplyGate.ToF32Near | crates/core/src/f2_observation.rs:1315-1318 | a peak in watts is compared as the nearest 32-bit float: within half a float step, exact exactly on the float grid and so below 2^24 |
| ApplyGate.ToF32Ties | crates/core/src/f2_observation.rs:1315-1318 | a peak half way between two 32-bit floats goes to the even one |
| ApplyGate.UlpMeaning | crates/core/src/f2_observation.rs:1315-1318 | the float step around a peak is the power of two that leaves 24 significant bits |
| ApplyGate.WorstPowerCovers | crates/core/src/f2_observation.rs:1292-1322 | no positive p99 and no peak, as a 32-bit float, of the pair's Apply evidence exceeds the worst-case power |
| ApplyGate.WorstPowerMeasured | crates/core/src/f2_observation.rs:1292-1322 | the worst-case power is one of those readings |
| ApplyGate.EnduranceInObservations | crates/core/src/f2_observation.rs:1270-1290 | the Endurance proof exists exactly when the pair holds one validated, clean, full-strength Endurance pass |
| ApplyGate.CompleteGateImpliesOthers | crates/core/src/f2_observation.rs:1096-1322 | for one run a complete-gate value p implies a required-set value at most p, a worst-case power at least p and the Endurance proof |
| ApplyGate.CurrentGateImpliesOthers | crates/core/src/f2_observation.rs:1096-1322 | the same for the patterns the current contract requires, with no condition on them left |
| TuningSpace.Chebyshev | crates/core/src/safe_loop.rs:72-80 | the loop over both key sets returns the largest wrapped axis difference, a missing axis counting as 0; it is the true distance exactly when that is below 2^63 |
| TuningSpace.DistExactIff | crates/core/src/safe_loop.rs:70-80 | the distance as 64-bit arithmetic computes it is never above the true one, and equals it exactly when that is below 2^63 |
| TuningSpace.FarPointsReadAsOne | crates/core/src/safe_loop.rs:72-80 | two points 2^63 apart whose computed distance is 0 |
| TuningSpace.DistSymmetric | crates/core/src/safe_loop.rs:70-80 | the distance is symmetric, true or computed |
| TuningSpace.DistTriangle | crates/core/src/safe_loop.rs:70-80 | the true distance satisfies the triangle inequality |
| TuningSpace.DistZeroIff | crates/core/src/safe_loop.rs:70-80 | true distance zero means agreement up to zero axes, and agreement makes the computed one zero |
| TuningSpace.DistInSettings | crates/core/src/safe_loop.rs:70-80 | the true distance is the largest of the differences on shared axes and of the sizes on the others |
| TuningSpace.IsInSome | crates/core/src/safe_loop.rs:299-301 | a point is blacklisted exactly when some region contains it |
| SafeLoop.SafeLoopRecord.constructor | crates/core/src/safe_loop.rs:282-295 | a new record is the default one, the start of every history |
| SafeLoop.SafeLoopRecord.MarkPointValidated | crates/core/src/safe_loop.rs:304-308 | validation resets the streak and becomes the recovery target |
| SafeLoop.SafeLoopRecord.ClearLatchState | crates/core/src/safe_loop.rs:323-331 | the operator reset releases the latch and keeps what was learnt |
| SafeLoop.SafeLoopRecord.RecordForgeIncident | crates/core/src/safe_loop.rs:334-348 | an incident is recorded once, and only when neither its id nor its run is remembered |
| SafeLoop.SafeLoopRecord.AcknowledgeForgeIncident | crates/core/src/safe_loop.rs:351-367 | acknowledging returns and releases the pending incident |
| SafeLoop.SafeLoopRecord.RecoverAtBoot | crates/core/src/safe_loop.rs:422-515 | deciding and applying recovery takes exactly the specified step and returns the specified point |
| SafeLoop.SupervisedCrashIsFree | crates/core/src/safe_loop.rs:429-502 | on any record, a crash boot of phase f2_undervolt_probe whose bugcheck is not Unrelated retreats and leaves streak and latch alone |
| SafeLoop.OrdinaryCrashCounts | crates/core/src/safe_loop.rs:429-508 | on any record, every other crash boot adds one to the streak, trips at stock from the third on and retreats before that |
| SafeLoop.CrashesCountedIff | crates/core/src/safe_loop.rs:427-508 | over any run the streak is the number of such crashes since the last validation or latch clear, and a boot trips exactly from the third on |
| SafeLoop.LatchedSinceTrip | crates/core/src/safe_loop.rs:314-508 | over any run the record is latched exactly when such a crash came and no latch clear followed it |
| SafeLoop.PhaseShown | crates/core/src/safe_loop.rs:303-510 | the phase the record shows after each operation of any run |
| SafeLoop.NothingElseChanges | crates/core/src/safe_loop.rs:303-510 | the fields each operation leaves alone |
| SafeLoop.ReportedOnce | crates/core/src/safe_loop.rs:334-348 | an incident whose id or run is remembered changes nothing; any other becomes the pending one and the newest of at most 64 |
| SafeLoop.RunSummarisesHistory | crates/core/src/safe_loop.rs:297-515 | over any history from the default record: the streak counts counted crashes since the last validation or latch clear, the latch is set exactly by a streak of 3 not cleared since, the crash log is the last 32 retreats, and Idle means neither latched nor waiting |
| SafeLoop.SafeModeTripsIff | crates/core/src/safe_loop.rs:427-448 | a boot trips Safe Mode exactly when it is a counted crash and at least the third in the streak |
| SafeLoop.LatchChangesOnlyBy | crates/core/src/safe_loop.rs:314-331 | only a tripping boot sets the latch and only a latch clear releases it |
| SafeLoop.CleanBootRestores | crates/core/src/safe_loop.rs:449-463 | a boot without a flag applies the last validated point only when neither latched nor awaiting acknowledgement, stock otherwise, and never counts a crash |
| SafeLoop.LatchedBootIsStockIff | crates/core/src/safe_loop.rs:422-515 | after any latched history a boot applies stock exactly when no flag was armed, the crash trips again, or there is nothing but stock to recede to; the latch stays |
| SafeLoop.LatchedBootCanRecede | crates/core/src/safe_loop.rs:429-449 | after three counted crashes and a validation the record is latched, yet the next crash boot applies the validated point |
| SafeLoop.BlacklistGrows | crates/core/src/safe_loop.rs:483-500 | over any run the blacklist only grows and its centers stay further apart than the radius |
| SafeLoop.RecededFromStaysBlacklisted | crates/core/src/safe_loop.rs:483-500 | every point a boot receded from is blacklisted then and ever after |
| SafeLoop.CentersAreCrashes | crates/core/src/safe_loop.rs:483-500 | over any run every blacklisted region is centered on a point some boot crashed at |
| SafeLoop.UnitRegion | crates/core/src/safe_loop.rs:94-97 | a region of radius 1 contains the point one step away and not the one two steps away |
| SafeLoop.CrashPointBlacklistedIff | crates/core/src/safe_loop.rs:483-506 | the crashed point is blacklisted afterwards exactly when Safe Mode was not tripped or it already was blacklisted |
| SafeLoop.TrippingPointStaysOpen | crates/core/src/safe_loop.rs:483-506 | after any history, a crash away from all earlier ones that trips Safe Mode leaves its point off the blacklist |
| SafeLoop.ThreeCrashesTrip | crates/core/src/safe_loop.rs:427-506 | three crashes 100 MHz apart are such a history |
| SafeLoop.RecedesIntoBlacklistIff | crates/core/src/safe_loop.rs:440-500 | exactly when recovery recedes to a blacklisted point |
| SafeLoop.RecedesToCrashedPoint | crates/core/src/safe_loop.rs:440-500 | when the validated point is the one that crashes, recovery blacklists it and recedes to it |
| SafeLoop.AcknowledgeMarksPending | crates/core/src/safe_loop.rs:350-367 | acknowledging marks exactly the newest remembered incident |
| SafeLoop.RunKeepsIncidentsValid | crates/core/src/safe_loop.rs:334-367 | over any run remembered incidents share neither id nor run, number at most 64, and a pending one is the newest |
| SafeLoop.ValidatedNeedsFullCycle | crates/core/src/safe_loop.rs:135-154 | the Validated phase is only reached through probe, apply and dwell, undisturbed in between, with no failure during the dwell |
| SafeLoop.FullCycleValidates | crates/core/src/safe_loop.rs:135-154 | from rest, a result or a failure, an undisturbed cycle validates, and a soft failure of its dwell ends Unstable |
| SafeLoop.StrayEventIgnored | crates/core/src/safe_loop.rs:129-154 | a step of the cycle acts only in the phase it belongs to |
| SafeLoop.UnstablePhaseIff | crates/core/src/safe_loop.rs:135-154 | after any event sequence the phase is Unstable exactly when something failed and no probe, reset or trip followed |
| SafeLoop.IdlePhaseIff | crates/core/src/safe_loop.rs:135-154 | after any event sequence the phase is Idle exactly when nothing started, crashed or tripped since the last reset |
| SafeLoop.SafeModePhaseIff | crates/core/src/safe_loop.rs:135-154 | after any event sequence the phase is Safe Mode exactly when it was tripped with no reset and no hard crash since |
| CurvePlan.MonotoneIsDownwardPartIff | crates/gpu-nvapi/src/lib.rs:699-777 | the monotone offset is the non-positive part of the flatten offset exactly when clock and target are less than 2^31 apart |
| CurvePlan.CeilingsLandIff | crates/gpu-nvapi/src/lib.rs:699-777 | exactly when written offsets land flattened bins on the target, and when the monotone plan caps without raising |
| CurvePlan.CeilingEntriesAddressCurve | crates/gpu-nvapi/src/lib.rs:699-777 | entries of both ceiling plans address their own bins in curve order, and their class says where the bin lies |
| CurvePlan.SingleBinAcceptedIff | crates/gpu-nvapi/src/lib.rs:991-1061 | the exact acceptance condition of a single raise, and that it lands on the target |
| CurvePlan.CurveRefusals | crates/gpu-nvapi/src/lib.rs:876-1013 | which curve rule a raise breaks: empty, a bin outside 600-1150 mV or 500-3500 MHz, no such bin |
| CurvePlan.BinRefusals | crates/gpu-nvapi/src/lib.rs:1014-1048 | which bin rule a raise breaks, in order and in plain integers |
| CurvePlan.EnvelopesInNumbers | crates/gpu-nvapi/src/lib.rs:904-955 | the default envelope admits 30 MHz and 15 a step, the chained sweep 210 and 15 |
| CurvePlan.HardwareFrontierNeverBinds | crates/gpu-nvapi/src/lib.rs:957-971 | the hardware-derived caps never reject a real bin |
| CurvePlan.ManualPriorIsOneShot | crates/gpu-nvapi/src/lib.rs:920-935 | from stock a manual prior is bounded by its own cap alone |
| CurvePlan.HorizonNeedsManySteps | crates/gpu-nvapi/src/lib.rs:937-955 | over any descent of accepted probes, n of them raise a bin by at most 15 n MHz, and never beyond 210 |
| CurvePlan.PlanAnchored | crates/gpu-nvapi/src/lib.rs:1164-1274 | which of the three failures is reported, and the whole plan (entries, counts, largest cap) otherwise |
| CurvePlan.AnchoredPlanAddressesCurve | crates/gpu-nvapi/src/lib.rs:1164-1274 | every accepted plan has one entry per bin in curve order, each with that bin's index, voltage, base clock, role and offset; the anchor is the only bin of its index |
| CurvePlan.AnchoredPlanCounts | crates/gpu-nvapi/src/lib.rs:1184-1274 | its counts and its largest flatten are those of the bins above and below the anchor voltage |
| CurvePlan.AnchoredRefusals | crates/gpu-nvapi/src/lib.rs:1171-1262 | which anchored rule a request breaks: the anchor's own, a bin up to the anchor voltage above the target, a second bin of the anchor's index |
| CurvePlan.OnlyAnchorRaised | crates/gpu-nvapi/src/lib.rs:1150-1274 | an accepted plan raises the anchor alone, reaches the target there and exceeds it nowhere |
| CurvePlan.CountsPartition | crates/gpu-nvapi/src/lib.rs:1184-1254 | anchor, capped, already-fine and elastic bins partition the curve |
| CurvePlan.AnchoredAgreesWithMonotone | crates/gpu-nvapi/src/lib.rs:1092-1274 | every other bin gets what the monotone ceiling at the anchor voltage would write, the non-positive part of the flatten plan |
| CurvePlan.AnchoredCurveMonotoneIff | crates/gpu-nvapi/src/lib.rs:1164-1274 | over any base curve the anchored curve is monotone exactly when the untouched bins up to the anchor voltage are and no bin above it starts below the target |
| CurvePlan.AnchoredCurveCanDip | crates/gpu-nvapi/src/lib.rs:1164-1274 | a two-bin curve whose anchored form dips |

## Left out

- QualifierPlan.VfQualifierPlan: takes the weights of any template; the twelve concrete templates, their phases and workloads are data it passes through.
- The sweep's `simulated` flag and the progress snapshot are display data.
- The run-scoped view of the ledger is the same function on a filtered log.
- The p95-clock gate is the required-set gate with clocks in place of power; it would only repeat that proof.
- Telemetry copied into frontier entries (watts, clocks, temperatures, confidence) and the bridge to profile scoring: floating-point display values.
- Whether evidence provenance names every component of the build is one flag of an observation.
- Wall-clock time, timestamps, generated ids, files, JSON, and the hardware itself: inputs or absent.
- How the service arms and clears the boot flag around an apply is not part of this model.
- The floating-point kernels and the VRAM pattern kernel have no closed form to compare against.
