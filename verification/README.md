# Correctness control of the semantic cache, in Dafny

This project models the parts of MLCache that decide, and are meant to keep safe, when a cached
response is reused: how an accept threshold is taken from H0 scores (pairs that must not be reused)
under a false-accept budget, how that budget is kept while serving, how judged pairs are collected and
split, when a scorer may be fitted and activated, which entries a bounded cache keeps, and when online
updating stops. Each component is a Dafny module. Stateful classes stay classes whose methods are proved
against a specification; whole-run properties are lemmas about those specifications.

    dafny verify dfyconfig.toml

## The modules

| module | what it holds |
|---|---|
| Scores, RealArithmetic, IntegerArithmetic | scores, tie modes, options, bounded windows; facts about products and quotients |
| OrderStatistics, Thresholds | descending sort, counts above a cut, Neyman-Pearson thresholding |
| Wilson | the Wilson upper bound without a square root |
| QueryLevelCalibration, QueryLevelPolicy | calibration from records, its gate, and serving with the result |
| AciController, AciBudget | the adaptive controller; its budget and its gate over whole runs |
| AuditPolicy, Metrics, Replay, ReplayLeakage, ReplayBudget | auditing, streaming metrics, offline replay, what a replay can learn from a label, and the budget its metrics keep |
| Eviction, Gateway, GatewayRuns, EvictionHistory, EvictionTraces | eviction policies, the gateway's three stores, runs, whom each policy evicts by the history of operations, LRU and FIFO against list models |
| TrainingStore, ShadowCollector, CollectedPairs, CollectorRuns, CalibrationRecords | the split store, the collector, which pairs it takes, conservation and exact splits, and what the collector's records tell query-level calibration |
| RefitPolicy, GateSizing | when a fit starts, and whether the sizes of its activation gate can be met |
| FitCalibration, FitGate | the threshold a fit gets for its scores, and which scores let it pass the gate |
| Stopping, StoppingBounds, StoppingDrift | the convergence controller, what a stop means, and how far readings can drift for any check interval |
| CacheSystem, SystemRuns | the serving system: counting, convergence checks, freezing |

## How things are represented

- A score is a non-NaN double, given by its position in the order of doubles; `nextafter` is one step
  that stops at the infinities. Rates, alpha, gamma, weights and monitor readings are reals.
- Where the Wilson bound appears, the result of `sqrt` is a parameter constrained to be the root, and
  `UpperAtMost` is the equivalent comparison that needs none.
- The random generator is a tape of draws with a cursor. The judge, the feature builder, the oracle's
  answers, the eviction choice for training examples, a lost key in an external store and a failed query
  record are inputs.
- A ValueError or IndexError is a result, not a precondition, wherever the code can meet it after
  construction; constructors require the configuration they would otherwise refuse.
- A lock-protected block is one step.

## Where the code and its own words differ

The model follows the code. Each of these is a lemma with the exact condition or a concrete input.

- The threshold is documented to accept at most floor(target * n) H0 scores. With ties at +inf in GE mode
  it accepts more (`Thresholds.BudgetIsKept`, `Thresholds.TopSaturationBreaksBudget`).
- A larger alpha can reject what a smaller one accepted, when a quantile leaves the finite range and a
  laxer fallback replaces it (`AciBudget.LargerAlphaAcceptsMoreIff`, `AciBudget.FallbackCanAcceptMore`).
- The lower clamp on alpha can overspend the budget (`AciBudget.FlooredRunOverspends`). Every run of at most T H0
  updates is safe from it exactly when T * gamma * (1 - target) <= alpha - alpha_min at its start
  (`AciBudget.BudgetIsSafeIff`, `AciBudget.OwnBudgetIsSafeIff`).
- The replay's no-leakage test expects the logged alpha at a position not to see the label there. It does,
  because it is read after learning (`ReplayLeakage.LoggedAlphaSeesTheLabel`, `ReplayLeakage.LoggedAlphaLeaks`).
  So is the logged threshold source (`ReplayLeakage.LoggedSourceRunsAhead`).
- The audit band ignores the tie mode, so at score == tau it can disagree with the decision
  (`AuditPolicy.ZoneSidesWithDecision`).
- A fatal query-record failure leaves stored pairs uncounted (`CollectorRuns.FatalRecordFailureLosesCounts`);
  the collector's counts are complete exactly when no call did so (`CollectorRuns.ObservedPairsAreAccountedFor`).
- The gate sizing is commented as always satisfiable. A batch size below 20 makes it unsatisfiable and a
  fraction split can leave the train total one short (`GateSizing.SplitByOneNeverFits`,
  `GateSizing.TrainTotalCanBeOneShort`); `GateSizing.GatesAreMetIff` is the exact condition on the arguments.
  Met sizes are not enough. The sizing assumes a threshold that accepts no H0 calibration score, and under GE,
  which the system always uses, a fit never finds a finite one (`FitCalibration.FiniteFit`,
  `FitGate.SmallSetupFindsNoThreshold`). With the default arguments the first fit is triggered at 350 H0 pairs
  and no fit can pass before 530 (`FitGate.DefaultFitsNeed530`). The exact conditions are `FitGate.FitPassesIff`
  for given scores, `FitGate.SomeFitPassesIff` for some scores and `FitGate.EveryFiniteFitPassesIff` for all.
- A degraded TPR is listed as a reason to refit, but never causes one that would not happen anyway
  (`RefitPolicy.TprDropOnlySuppresses`, `RefitPolicy.TprDropSuppressesRecalibration`).
- Convergence within eps on every window does not bound the readings by 2 * eps when non-finite readings
  separate them (`StoppingBounds.StopTwoEpsIffBridged`, `StoppingBounds.StopsFarApart`). In the serving system
  all readings are finite, and what they can drift before a freeze is eps for each window needed to get from one
  to the other, for any check interval and patience (`SystemRuns.ConvergedFreeze`); no smaller bound holds
  (`StoppingDrift.DriftIffReached`).
- `max_requests` of zero still serves one request (`SystemRuns.RunLength`).

## Model

| member | source | states |
|---|---|---|
| OrderStatistics.SortIsSorted | src/mlcache/calibration/query_level.py:32 | the sort is a descending permutation of the scores |
| OrderStatistics.CountAt | src/mlcache/calibration/query_level.py:39-40 | in a descending list, more than k scores reach a cut exactly when the k-th entry does |
| Thresholds.AllowedAccepts | src/mlcache/calibration/query_level.py:33-34 | the clamped budget never exceeds the number of scores |
| Thresholds.NoThreshold | src/mlcache/calibration/query_level.py:29-31 | no scores give no threshold, and without a threshold nothing is accepted |
| Thresholds.AcceptCountIsCountAtCut | src/mlcache/calibration/query_level.py:332-339 | the accept count of a threshold is the number of scores at or above its cut, in both tie modes |
| Thresholds.ThresholdCut | src/mlcache/calibration/query_level.py:36-51 | both tie modes aim at one cut, which only the ends of the number line can move |
| Thresholds.BudgetIsKept | src/mlcache/calibration/query_level.py:21-28 | at most floor(rate * n) scores are accepted, ties included, if and only if the mode is strict or the +inf scores fit the budget |
| Thresholds.TopSaturationBreaksBudget | src/mlcache/calibration/query_level.py:37-38 | a concrete list for which GE accepts one score against a budget of none |
| Thresholds.AcceptedIffTieGroupFits | src/mlcache/calibration/query_level.py:32-51 | a score is accepted exactly when its whole tie group fits the budget, if and only if no range end saturates |
| Thresholds.ThresholdIsMaximal | src/mlcache/calibration/query_level.py:21-28 | any threshold within the budget accepts only scores this one accepts |
| Thresholds.TieModesAgree | src/mlcache/calibration/query_level.py:36-51 | the GE and GT thresholds classify every score alike if and only if neither range end saturates |
| Thresholds.ThresholdAntitoneInRate | src/mlcache/calibration/query_level.py:32-51 | a larger rate never raises the threshold |
| Thresholds.ThresholdIgnoresOrder | src/mlcache/calibration/query_level.py:32 | permuted scores give the same threshold |
| Thresholds.RatesBelowOneNeverSaturateBelow | src/mlcache/calibration/query_level.py:45-51 | with a rate below one the bottom of the range never matters |
| Wilson.UpperBoundComparison | src/mlcache/calibration/wilson.py:22-27 | the bound is at most a exactly when a >= k/n and n(a - k/n)^2 >= z^2 a(1 - a) with a > 0 |
| Wilson.UpperBoundRange | src/mlcache/calibration/wilson.py:22-27 | the unclamped bound is positive, at least k/n and at most one, so the clamp changes nothing |
| Wilson.BoundExists | src/mlcache/calibration/wilson.py:11-20 | counts that do not fit and a z that is not positive are errors; only an empty sample has no bound |
| Wilson.BoundAtMost | src/mlcache/calibration/wilson.py:8-27 | for valid arguments the clamped bound exists, and it is at most a exactly when the test without a root says so |
| Wilson.UpperBoundMonotone | src/mlcache/calibration/wilson.py:22-27 | the bound never decreases in the number of successes |
| Wilson.UpperBoundAtZero | src/mlcache/calibration/wilson.py:22-27 | with no successes the bound is z^2 / (n + z^2) |
| Wilson.UpperAtMostBoundsCount | src/mlcache/calibration/wilson.py:22-27 | a bound at most a leaves at most a * n successes |
| Wilson.CleanSampleFloorIsExact | src/mlcache/system.py:185-194 | a clean sample passes exactly when it has at least max(1, ceil(z^2(1 - allowed)/allowed)) members |
| QueryLevelCalibration.SelectMaxScoreIsFirstBest | src/mlcache/calibration/query_level.py:359-369 | the selected candidate has the top score, then the least rank, then comes first |
| QueryLevelCalibration.SelectionIs | src/mlcache/calibration/query_level.py:359-369 | the same in scores and ranks alone, a missing rank counting as the number of candidates plus one |
| QueryLevelCalibration.RecordDecides | src/mlcache/calibration/query_level.py:197-222 | a record adds one hit with its selected candidate, or an abstention, or nothing, and its selected score exactly when that candidate is H0 |
| QueryLevelCalibration.H0ScoresAreCounted | src/mlcache/calibration/query_level.py:197-201 | the all-pair scores hold each H0 score as often as it occurs among the candidates |
| QueryLevelCalibration.RecordAppended | src/mlcache/calibration/query_level.py:197-222 | one more record keeps the dataset consistent with the records: every query decided or skipped, H0 scores those of the decisions |
| QueryLevelCalibration.DatasetAfterAll | src/mlcache/calibration/query_level.py:184-239 | the record-by-record dataset is consistent with the whole list of records |
| QueryLevelCalibration.DefaultQueryLevelCalibrationBuilder.AddRecord | src/mlcache/calibration/query_level.py:197-222 | one iteration appends the record's decision and scores, and moves one counter |
| QueryLevelCalibration.DefaultQueryLevelCalibrationBuilder.BuildCalibrationDecisions | src/mlcache/calibration/query_level.py:184-239 | the loop returns a dataset consistent with the records: decisions, H0 scores, all-pair scores and the three counters |
| QueryLevelCalibration.DefaultQueryLevelCalibrationBuilder.Calibrate | src/mlcache/calibration/query_level.py:241-319 | calibrating records builds a consistent dataset and calibrates exactly it |
| QueryLevelCalibration.PublishedIff | src/mlcache/calibration/query_level.py:256-287 | a threshold is published exactly when enough H0 were selected, it is finite if required, and the square-root-free Wilson test passes; it then keeps the accepted rate within target plus margin |
| QueryLevelCalibration.TargetOverride | src/mlcache/calibration/query_level.py:241-256 | a target given for one call replaces the configured one, and must be a rate |
| QueryLevelCalibration.CalibrationReports | src/mlcache/calibration/query_level.py:256-319 | the reported bound, all-pair accepts and reason: the first gate that failed, none exactly when a threshold is published |
| QueryLevelPolicy.FalseHitsAreAccepts | src/mlcache/policies/query_level.py:66-132 | serving the calibration records makes as many false hits as the threshold accepts selected H0 scores |
| QueryLevelPolicy.CalibrateThenServe | src/mlcache/policies/query_level.py:66-132 | end to end: false hits on the same records equal the calibration's accept count, their rate is within target plus margin, and they are within floor(target * n) if and only if the mode is strict or +inf fits |
| QueryLevelPolicy.EvaluationIs | src/mlcache/policies/query_level.py:66-132 | for every policy, candidate list and override: accepted exactly when a selected candidate passes the threshold in force; a miss exactly when it fails one; an abstention without a candidate or a threshold |
| QueryLevelPolicy.HitIffSomeCandidatePasses | src/mlcache/policies/query_level.py:96-132 | with the default selection a query hits exactly when some candidate passes the threshold in force, override included |
| AciController.GlobalACIController.Seed | src/mlcache/adaptive/aci_controller.py:120-138 | seeding keeps the last scores, flags them as seeded and replaces the fallback only if one is given |
| AciController.SeedingKeepsTheLatest | src/mlcache/adaptive/aci_controller.py:120-138 | after seeding the deques hold the last of the old and new scores, the new ones flagged as seeded; only a given fallback replaces the old one |
| AciController.GlobalACIController.Threshold | src/mlcache/adaptive/aci_controller.py:149-168 | the threshold is the buffer quantile when it is ready and finite, else the fallback, else +inf |
| AciController.GlobalACIController.ShouldAccept | src/mlcache/adaptive/aci_controller.py:170-174 | admission compares with that threshold in the controller's tie mode |
| AciController.ThresholdInForce | src/mlcache/adaptive/aci_controller.py:149-168 | with a short buffer or a quantile that is not finite the fallback holds, else +inf; otherwise the quantile, under which the buffered accepts stay within alpha |
| AciController.AdmissionIs | src/mlcache/adaptive/aci_controller.py:170-174 | a score is admitted above the threshold, and at it only under GE |
| AciController.GlobalACIController.Update | src/mlcache/adaptive/aci_controller.py:189-229 | an H0 event moves the windows, the counters and alpha as specified; other labels change nothing, a malformed one is an error |
| AciController.UpdatedIsValid | src/mlcache/adaptive/aci_controller.py:214-229 | every update keeps alpha in [alpha_min, alpha_max], the deques within their bounds and the counters consistent |
| AciController.GlobalACIController.SaveStateDict | src/mlcache/adaptive/aci_controller.py:263-283 | loading what a valid controller saves brings back exactly its state |
| AciController.GlobalACIController.LoadStateDict | src/mlcache/adaptive/aci_controller.py:285-314 | loading replaces the whole state, truncating the deques and defaulting the gate settings, deques and counters that old checkpoints lack; a negative deque length is an error that leaves the counters alone |
| AciController.SafelyUnderIsWilson | src/mlcache/adaptive/aci_controller.py:178-187 | for a non-empty window the gate's test is that the clamped Wilson bound does not exceed the target |
| AciController.CountTrueIsCardinality | src/mlcache/adaptive/aci_controller.py:178-187 | the gate counts the accepted outcomes of the window |
| AciController.WellFormedLabels | src/mlcache/adaptive/aci_controller.py:207-212 | an update refuses every label but 0, 1 and unknown |
| AciController.CheckpointRoundTrip | src/mlcache/adaptive/aci_controller.py:263-314 | loading a saved state restores it if and only if the deques respect their bounds, as they do in every valid state |
| AciController.LoadedIsNamed | src/mlcache/adaptive/aci_controller.py:285-314 | each checkpoint entry ends in the field it is named after |
| AciController.OldCheckpointsLoad | src/mlcache/adaptive/aci_controller.py:297-314 | a checkpoint without origin flags, or without any optional entry, loads as a valid state with all entries flagged seeded |
| AciBudget.AlphaAccounting | src/mlcache/adaptive/aci_controller.py:214-229 | over any run alpha changes by gamma times the unspent budget plus what the lower clamp lifted minus what the upper clamp cut and the gate withheld |
| AciBudget.UpdateInClosedForm | src/mlcache/adaptive/aci_controller.py:189-229 | one update, whole state: an H0 event enters the windows and alpha takes its full step, clipped, unless the gate is on, the event was rejected and the new window is not safely under the target; then alpha stays and the block is counted |
| AciBudget.WithheldIsBlocked | src/mlcache/adaptive/aci_controller.py:219-226 | over any run the gate withholds gamma * target for each block it counts, and nothing when it is off |
| AciBudget.LedgerCounts | src/mlcache/adaptive/aci_controller.py:207-218 | the ledger counts the H0 events of the run and the accepted ones among them |
| AciBudget.FalseHitBudget | src/mlcache/adaptive/aci_controller.py:214-229 | the ledger of a finished run: S <= target * T + (alpha_start - alpha_end)/gamma if and only if the lift is at most cut plus withheld; dually for >= (before the run: BudgetIsSafeIff) |
| AciBudget.BudgetBounds | src/mlcache/adaptive/aci_controller.py:214-229 | the upper bound whenever the lower clamp never binds, the lower bound whenever neither the upper clamp nor the gate does |
| AciBudget.RoomMeansNoLift | src/mlcache/adaptive/aci_controller.py:217-228 | alpha falls by at most gamma * (1 - target) per H0 update, so that a run with room for all of them is never lifted by the lower clamp |
| AciBudget.BudgetIsSafeIff | src/mlcache/adaptive/aci_controller.py:217-228 | known before the run: all runs of at most T H0 updates keep S <= target * T + (alpha_start - alpha_end)/gamma if and only if T * gamma * (1 - target) <= alpha - alpha_min |
| AciBudget.OwnBudgetIsSafeIff | src/mlcache/adaptive/aci_controller.py:170-229 | the same condition decides it over runs in which a GE controller takes its own decisions |
| AciBudget.FlooredRunOverspends | src/mlcache/adaptive/aci_controller.py:228 | a run at the lower clamp with one false hit against a budget of 0.05 |
| AciBudget.AlphaMoves | src/mlcache/adaptive/aci_controller.py:217-229 | alpha rises exactly on a rejected H0 below the cap that the gate lets pass, and falls exactly on an accepted H0 above the floor |
| AciBudget.WindowsAreRecent | src/mlcache/adaptive/aci_controller.py:107-116 | on every run the windows are the most recent H0 scores and outcomes of the history |
| Scores.LastNIsEnd | src/mlcache/adaptive/aci_controller.py:107-116 | a bounded deque holds the last entries it was given, in order |
| AciBudget.RiseIsSafe | src/mlcache/adaptive/aci_controller.py:221-226 | with the gate on, a rise of alpha leaves a window whose accepted fraction is at most the target |
| AciBudget.GatedLooseningIsSafe | src/mlcache/adaptive/aci_controller.py:200-205 | on every run, from a new or a loaded controller, alpha rises only when the accepted fraction of the last min(window, known H0 outcomes) is at most the target |
| AciBudget.LargerAlphaAcceptsMoreIff | src/mlcache/adaptive/aci_controller.py:149-174 | exactly when a larger alpha accepts all that a smaller one accepts, in terms of the two quantiles and the fallback |
| AciBudget.LargerAlphaAcceptsMore | src/mlcache/adaptive/aci_controller.py:149-174 | in particular whenever no buffered score is next to the infinities |
| AciBudget.FallbackCanAcceptMore | src/mlcache/adaptive/aci_controller.py:164-167 | a controller whose smaller alpha accepts a score its larger alpha rejects |
| AuditPolicy.MarginBandAuditPolicy.Decide | src/mlcache/adaptive/audit_policy.py:122-135 | a decision takes exactly two draws, control first, and is determined by them, the score and tau |
| AuditPolicy.ZoneSidesWithDecision | src/mlcache/adaptive/audit_policy.py:104-112 | the accept bands are the accepted scores, except exactly at score == tau against the tie mode |
| AuditPolicy.BandsByMargin | src/mlcache/adaptive/audit_policy.py:104-112 | the four bands by the margin of a finite score over a finite tau, boundaries included |
| AuditPolicy.BandsAtInfinity | src/mlcache/adaptive/audit_policy.py:104-112 | next to an infinity a score is a safe accept above tau and a safe reject otherwise |
| AuditPolicy.BandsAreOrdered | src/mlcache/adaptive/audit_policy.py:104-112 | a higher score never falls into a lower band |
| AuditPolicy.DrawsDecide | src/mlcache/adaptive/audit_policy.py:114-135 | the first draw against one control rate, the second against the rate of the band; judged if either falls; the logged rates are those used |
| Metrics.Counter.Add | src/mlcache/adaptive/metrics.py:66-74 | one labelled event moves exactly the counters it belongs to |
| Metrics.WeightedCounter.Add | src/mlcache/adaptive/metrics.py:98-112 | one weighted event adds its weight and square; non-positive weights and unknown labels change nothing |
| Metrics.NothingAdded | src/mlcache/adaptive/metrics.py:98-112 | weights that are not positive and unknown labels add nothing |
| Metrics.AdmissionMetrics.Record | src/mlcache/adaptive/metrics.py:170-193 | after every event each counter, the window and the list of snapshots equal a recount of the whole history |
| Metrics.AdmissionMetrics.WindowSnapshot | src/mlcache/adaptive/metrics.py:197-236 | a snapshot's counters and rates equal a recount of the history and of its last `window` events |
| Metrics.TallyCounts | src/mlcache/adaptive/metrics.py:58-74 | the counters of a channel are the numbers of H0 and H1 events, and of accepted ones, among all, judged or control-audited events |
| Metrics.ServedCounts | src/mlcache/adaptive/metrics.py:170-179 | totals, hits, hits without a judge and judged events are the numbers of such events |
| Metrics.RatesAreShares | src/mlcache/adaptive/metrics.py:51-83 | each rate times its denominator is its numerator, and there is none for a denominator of zero |
| Metrics.SnapshotsAreRegular | src/mlcache/adaptive/metrics.py:191-193 | there is one snapshot per `every` events, of the history up to that event |
| Metrics.SnapshotShows | src/mlcache/adaptive/metrics.py:197-236 | a snapshot shows counts and rates of the history and of its last `window` events |
| Metrics.WeightedTallyAppend | src/mlcache/adaptive/metrics.py:98-112 | the streaming weighted sums are the sums over the recounted inverse-probability weights |
| Metrics.WeightedStep | src/mlcache/adaptive/metrics.py:188-189 | a diagnostic audit adds one over its logged probability to the sums of its label |
| Metrics.WeightsAreUnbiased | src/mlcache/adaptive/metrics.py:86-112 | averaged over the diagnostic draw of an event, each weighted sum moves by what counting every event would |
| Metrics.SquaresAgainstSum | src/mlcache/adaptive/metrics.py:122-126 | sum of squares <= square of the sum <= n times the sum of squares, for positive weights |
| Metrics.KishBounds | src/mlcache/adaptive/metrics.py:122-134 | the effective sample size exists exactly when there are weighted events, and lies between 1 and their number |
| Metrics.KishOfEqualWeights | src/mlcache/adaptive/metrics.py:122-134 | n equal weights have an effective size of n |
| Replay.Learn | src/mlcache/adaptive/replay.py:246-249 | only control-audited events reach the controller, and only they can raise |
| Replay.OfflineReplayRunner.Serve | src/mlcache/adaptive/replay.py:338-367 | one event is decided and audited before the label is read, and logged after learning |
| Replay.OfflineReplayRunner.Advance | src/mlcache/adaptive/replay.py:337-373 | one more event extends the replay and its metrics, or stops at a malformed label |
| Replay.OfflineReplayRunner.Run | src/mlcache/adaptive/replay.py:321-381 | the events are those of the specified run position by position, the metrics are those of the events, and the generator has moved two draws per event |
| Replay.EventTells | src/mlcache/adaptive/replay.py:330-376 | each logged event tells the threshold in force before it, the comparison with it, the two draws of its position against their logged rates, the band, and alpha and threshold source after it |
| Replay.StepTells | src/mlcache/adaptive/replay.py:246-255 | only a control-audited event of an adaptive method changes it, by one update with its score, label and outcome |
| ReplayLeakage.DecisionsDoNotLeak | src/mlcache/adaptive/replay.py:337-349 | noninterference: tau, decision, zone and audits at i depend on the scores up to i, and on labels only through which earlier control-audited events are H0 |
| ReplayLeakage.ControlMaskIsShared | src/mlcache/adaptive/audit_policy.py:124-128 | the control mask is the same for every method and stream, read off the tape alone |
| ReplayLeakage.OnlyAuditedLabelsStopARun | src/mlcache/adaptive/aci_controller.py:207-212 | a replay stops exactly at a malformed label of a control-audited event under an adaptive method |
| ReplayLeakage.LoggedAlphaSeesTheLabel | src/mlcache/adaptive/replay.py:347-367 | the alpha logged at i is the same for an H0 and another label at i if and only if the method is fixed, i is not control-audited, or alpha is stuck |
| ReplayLeakage.LoggedAlphaLeaks | tests/test_adaptive_replay_no_leakage.py:102-134 | a one-event stream whose logged alpha changes with its label |
| ReplayLeakage.LoggedSourceRunsAhead | src/mlcache/adaptive/replay.py:349-367 | the logged threshold source differs from the one used exactly at the control-audited H0 that fills the buffer |
| ReplayBudget.ControlTally | src/mlcache/adaptive/metrics.py:186-187 | the streaming control counters count the audited H0 outcomes the controller learned |
| ReplayBudget.ControllerRuns | src/mlcache/adaptive/replay.py:246-249 | the controller of a replay is, after every event, that of a run over the control-audited events alone |
| ReplayBudget.MetricsKeepTheBudget | src/mlcache/adaptive/replay.py:321-381 | end to end: the false hits and H0 events the metrics report for the control audit are those of the controller's ledger, and keep the budget if and only if the floor lifted no more than cap and gate took away - so whenever the floor never bound |
| Eviction.StepsKeepValid | src/mlcache/cache/eviction.py:69-102 | inserts, hits and removals keep counters unique and every access count at least one |
| Eviction.VictimExists | src/mlcache/cache/eviction.py:104-110 | a non-empty valid policy has an entry that comes before all others |
| Eviction.VictimIsUnique | src/mlcache/cache/eviction.py:131-158 | and only one: victim selection is deterministic |
| Eviction.CacheEvictionPolicy.RecordInsert | src/mlcache/cache/eviction.py:69-87 | inserting gives a fresh order, tick and an access count of one, also for a known key |
| Eviction.CacheEvictionPolicy.RecordHit | src/mlcache/cache/eviction.py:89-97 | a hit refreshes tick and count of a tracked key and changes nothing else |
| Eviction.CacheEvictionPolicy.RecordRemoval | src/mlcache/cache/eviction.py:99-102 | a removal drops exactly that key |
| Eviction.CacheEvictionPolicy.SelectVictim | src/mlcache/cache/eviction.py:104-110 | the scan returns the unique victim, or none when empty |
| Gateway.SemanticCacheGateway.LookupWithDecision | src/mlcache/cache/gateway.py:66-84 | a lookup serves the stored response and records the hit, or drops a lost key from oracle and policy |
| Gateway.SemanticCacheGateway.Put | src/mlcache/cache/gateway.py:86-92 | a put stores, indexes, tracks and then evicts victims while the cache is overfull |
| Gateway.SemanticCacheGateway.Invalidate | src/mlcache/cache/gateway.py:94-97 | invalidation removes the key from all three stores |
| Gateway.SemanticCacheGateway.EnforceCapacity | src/mlcache/cache/gateway.py:99-107 | the loop terminates, evicts only victims, and leaves the cache within its bound |
| Gateway.InMemoryKVStore.Set | src/mlcache/cache/in_memory.py:20-21 | setting a key changes that key alone |
| Gateway.InMemoryKVStore.Delete | src/mlcache/cache/in_memory.py:23-24 | deleting removes that key alone |
| GatewayRuns.Run | src/mlcache/cache/gateway.py:66-111 | on every run tracked keys equal indexed keys, stored keys are among them and the bound holds after each operation |
| GatewayRuns.PutIsPutResult | src/mlcache/cache/gateway.py:86-107 | the eviction loop has one possible outcome: no eviction, or that of the unique victim |
| GatewayRuns.NothingLostNothingMissing | src/mlcache/cache/gateway.py:86-107 | unless the external store loses keys, stored keys equal indexed keys on every run |
| GatewayRuns.StoredIsLatest | src/mlcache/cache/gateway.py:86-97 | whatever is stored under a key is the response last put there |
| GatewayRuns.LookupServesLatestOrHeals | src/mlcache/cache/gateway.py:66-84 | a response is the last one put and served only while stored; a key found lost is afterwards in no store |
| GatewayRuns.PutEvicts | src/mlcache/cache/gateway.py:99-107 | a put evicts exactly when it brings a new key into a full cache, and then exactly one key |
| GatewayRuns.PutStores | src/mlcache/cache/gateway.py:86-92 | with a policy or without, a put stores and indexes its response and changes no other key but an evicted one; a lookup accepted for the key then answers it |
| GatewayRuns.OtherEffects | src/mlcache/cache/gateway.py:66-97 | a lookup never changes what is stored and drops a lost key from the index; an invalidation removes its key |
| GatewayRuns.OwnPutSurvival | src/mlcache/cache/eviction.py:131-158 | a put evicts its own key if and only if the policy is LFU and every other entry has been hit since its insertion |
| GatewayRuns.AccessCountIsHits | src/mlcache/cache/eviction.py:89-97 | the access count is one more than the hits since the last insertion, on every run |
| EvictionHistory.OrderIsHistory | src/mlcache/cache/eviction.py:131-147 | on every run a policy orders its keys by the history alone: FIFO by the last put, LRU by the last touch, LFU by hits since the last put and then by the last touch |
| EvictionHistory.EvictedIsFirst | src/mlcache/cache/gateway.py:86-107 | for all three policies and any operations, a put of a new key into a full cache drops exactly the first key in that order among the tracked ones and the new one; any other put drops none |
| EvictionHistory.StoredIffKept | src/mlcache/cache/gateway.py:66-107 | on every run, with any policy and bound or none, a key is stored if and only if it was put and since then neither invalidated, lost nor evicted |
| EvictionHistory.ServedUntilRemoved | src/mlcache/cache/gateway.py:66-107 | and a lookup accepted for it then answers the response last put, otherwise nothing |
| EvictionTraces.CountersRefineList | src/mlcache/cache/eviction.py:69-147 | after any trace LRU and FIFO track exactly a move-to-front list cut at the capacity, in counter order |
| EvictionTraces.ListRunIsRecent | src/mlcache/cache/eviction.py:131-147 | that list is the most recently touched distinct keys |
| EvictionTraces.PositionCounts | src/mlcache/cache/eviction.py:131-147 | a key's place in the recency order is the number of distinct keys touched after it |
| EvictionTraces.TrackedIffRecentlyTouched | src/mlcache/cache/eviction.py:131-147 | a key is cached if and only if it was touched and fewer than `cap` distinct keys were touched since |
| EvictionTraces.LargerCachesContainSmaller | src/mlcache/cache/eviction.py:131-147 | on one trace a larger LRU or FIFO cache contains a smaller one |
| TrainingStore.SplitBuckets.AddToBucket | src/mlcache/feedback/store.py:247-273 | a full bucket loses the chosen entry, the example enters, keys stay aligned and the counter exact; a bad index changes nothing |
| TrainingStore.InMemorySplitJudgeTrainingStore.AddTrain | src/mlcache/feedback/store.py:175-200 | an uncertain example, or one calibration holds, is dropped; any other enters its train bucket |
| TrainingStore.InMemorySplitJudgeTrainingStore.AddCalibration | src/mlcache/feedback/store.py:202-227 | the same with the splits exchanged |
| TrainingStore.AddedCounts | src/mlcache/feedback/store.py:266-273 | decrement, delete at zero and increment keep the counter the exact count of held keys, without zero entries |
| TrainingStore.SameKeyIff | src/mlcache/feedback/store.py:276-283 | two examples share a key exactly when query, candidate key, features and label agree |
| TrainingStore.OfferContents | src/mlcache/feedback/store.py:175-273 | what an offer does to the contents: the right bucket, appended, the chosen entry gone at capacity, the others in order; or nothing, for the stated reasons |
| TrainingStore.SplitsStaySeparated | src/mlcache/feedback/store.py:175-273 | in every reachable state no key is in both splits and every bucket is within capacity, under any eviction policy |
| TrainingStore.OffersAreConserved | src/mlcache/feedback/store.py:175-273 | every offer of a label is stored, evicted, dropped for the other split, or raised |
| TrainingStore.FifoKeepsTheLatest | src/mlcache/feedback/store.py:84-93 | with the default policy each bucket holds exactly the last examples it took in, up to its capacity, in order |
| ShadowCollector.DefaultShadowTopKCollector.ShouldSkip | src/mlcache/feedback/shadow_collector.py:314-336 | duplicates, self pairs and excluded served or unserved candidates are skipped, and no others |
| ShadowCollector.DefaultShadowTopKCollector.PrepareCandidates | src/mlcache/feedback/shadow_collector.py:159-183 | the loop with its break, continue and raise prepares what the candidate-by-candidate specification does |
| ShadowCollector.DefaultShadowTopKCollector.NextSplit | src/mlcache/feedback/shadow_collector.py:413-439 | a pair goes where its label's counts send it, and those counts advance |
| ShadowCollector.DefaultShadowTopKCollector.StoreDecided | src/mlcache/feedback/shadow_collector.py:217-238 | a decided pair is stored in its split under the request the judge returned, and counted, or counted as a failure |
| ShadowCollector.DefaultShadowTopKCollector.JudgeOne | src/mlcache/feedback/shadow_collector.py:191-238 | one judged candidate moves counts, splits and store as specified, failures included |
| ShadowCollector.DefaultShadowTopKCollector.BuildRecord | src/mlcache/calibration/query_records.py:21-72 | the loop builds one ranked entry per candidate, with its vector score and the label of its key |
| ShadowCollector.DefaultShadowTopKCollector.Collect | src/mlcache/feedback/shadow_collector.py:127-267 | a call ends in the specified state, with the specified result or raise and the specified query record, and the store stays what the offers made of it |
| CollectorRuns.PreparationConserved | src/mlcache/feedback/shadow_collector.py:159-183 | observed pairs are prepared or failed; without a limit every candidate is skipped or observed |
| CollectorRuns.JudgingConserved | src/mlcache/feedback/shadow_collector.py:191-238 | every prepared pair becomes H0, H1, uncertain or a failure |
| CollectorRuns.CallIsConserved | src/mlcache/feedback/shadow_collector.py:127-267 | pairs, plus one for a failed record, equal H0 + H1 + uncertain + failures; without a limit skipped + pairs = candidates considered |
| CollectorRuns.SplitsAreExact | src/mlcache/feedback/shadow_collector.py:413-439 | for every interleaving, after n pairs of a label calibration has exactly ceil(f * n) of them, or floor(n / N) |
| CollectorRuns.CallInStep | src/mlcache/feedback/shadow_collector.py:127-267 | one call moves a label's lifetime count by exactly the pairs it entered, if and only if it does not lose them to a fatal record failure after judging one |
| CollectorRuns.ObservedPairsAreAccountedFor | src/mlcache/feedback/shadow_collector.py:478-486 | over all calls observed pairs of a label never exceed stored + evicted + dropped, and equal them if and only if no call lost its counts; calibration got its exact share |
| CollectorRuns.LosslessBucketSizes | src/mlcache/feedback/shadow_collector.py:413-476 | after any calls that lost no pair the two buckets of a label hold exactly their shares |
| CollectorRuns.FatalRecordFailureLosesCounts | src/mlcache/feedback/shadow_collector.py:364-369 | a call that loses its counts: it stores a pair, raises, and counts nothing |
| CollectedPairs.SkipsIff | src/mlcache/feedback/shadow_collector.py:314-336 | when a candidate is skipped, in terms of earlier keys, the query and the served key |
| CollectedPairs.PreparedExactly | src/mlcache/feedback/shadow_collector.py:159-183 | the prepared candidates are exactly the unskipped ones within the pair limit that have features, in order; pairs and skips are counted as such, and when preparation raises |
| CollectedPairs.JudgementIs | src/mlcache/feedback/shadow_collector.py:191-238 | what one judged candidate does, in closed form: the example it becomes, the split its label's counts send it to, and the one count it moves |
| CollectedPairs.AdvanceIs | src/mlcache/feedback/shadow_collector.py:413-439 | the counts of the pair's own label advance, the calibration count only for a pair sent there |
| CollectedPairs.OfferIs | src/mlcache/feedback/shadow_collector.py:441-476 | an offer is the pair, for its split, with the eviction answer for that bucket |
| CollectedPairs.TotalsAdd | src/mlcache/feedback/shadow_collector.py:478-486 | a call that returns adds its own counts to the totals; a disabled collector does nothing |
| CalibrationRecords.LabelsTellJudgements | src/mlcache/feedback/shadow_collector.py:191-203 | after a call the label of a key is 0 exactly if the judge last called it not reusable, 1 exactly if reusable, and unknown otherwise |
| CalibrationRecords.CollectedTells | src/mlcache/feedback/shadow_collector.py:240-262 | a call that returns has made a record if records are kept, and the served label it returns tells the judge's last word on the served candidate in that sense |
| CalibrationRecords.RecordTellsJudgements | src/mlcache/feedback/shadow_collector.py:338-371 | the record of a call holds the retrieved candidates in order, ranked from one, with their scores and labels that tell the judge's last word on each key in that sense |
| CalibrationRecords.TopCandidateCounts | src/mlcache/calibration/query_level.py:359-369 | query-level calibration gets from a call the score of its top candidate, if and only if the judge last called that one not reusable |
| RefitPolicy.RefitsIff | src/mlcache/policies/refit.py:129-173 | the order-free condition under which a refit starts; a TPR drop is not part of it |
| RefitPolicy.RecalibratesIff | src/mlcache/policies/refit.py:129-173 | the condition under which a recalibration starts; semantic hits are never disabled |
| RefitPolicy.TprDropOnlySuppresses | src/mlcache/policies/refit.py:156-171 | a TPR drop changes the action exactly when, with nothing above it applying, no refit wanted and the cooldown elapsed, a threshold is stale: it suppresses that recalibration and nothing else |
| RefitPolicy.TprDropSuppressesRecalibration | src/mlcache/policies/refit.py:156-161 | a context in which it does |
| RefitPolicy.FprAboveIff | src/mlcache/policies/refit.py:209-216 | an upper bound is held against the target, a plain rate against the target plus the margin |
| RefitPolicy.TprDroppedIff | src/mlcache/policies/refit.py:218-223 | the TPR fell by the margin or more, where both are known |
| RefitPolicy.NewRefitDataIff | src/mlcache/policies/refit.py:187-200 | both labels gained their minimum, and the gain is the required fraction of the older examples |
| RefitPolicy.TimingIff | src/mlcache/policies/refit.py:225-258 | cooldowns and staleness in decisions and seconds |
| RefitPolicy.DecidesIff | src/mlcache/policies/refit.py:336-341 | a decision is refused exactly for a negative total or a target that is no rate |
| RefitPolicy.FirstFitIff | src/mlcache/policies/refit.py:139-142 | when the first fit starts, in the context's own terms |
| RefitPolicy.ExcessFprIff | src/mlcache/policies/refit.py:149-154 | an excess FPR is met by a recalibration or by waiting for one, never by a refit |
| RefitPolicy.ReasonNamesTheSignal | src/mlcache/policies/refit.py:129-173 | the reason names the first signal that applies, and tells the action |
| GateSizing.GateAsksTheWilsonBound | src/mlcache/oracle/trainable.py:607-653 | the gate passes exactly when the sizes are met, the threshold is finite if required, and the clamped Wilson bound is at most target plus margin |
| GateSizing.FailureNamesTheGap | src/mlcache/oracle/trainable.py:634-651 | what a failed gate names: the first size not met, then the threshold, then the bound |
| GateSizing.CountsAreBucketSizes | src/mlcache/feedback/shadow_collector.py:413-476 | the counts the gates are compared with are the collector's bucket sizes |
| GateSizing.MetFromTheTriggerOn | src/mlcache/system.py:196-198 | the sizes are met for all totals from the trigger on if and only if they are met at the trigger |
| GateSizing.ModuloGatesIff | src/mlcache/system.py:164-182 | with the modulo split they are met if and only if N >= 2 and min_h1 >= N |
| GateSizing.FractionGatesIff | src/mlcache/system.py:171-182 | with the fraction split the bucket minimums are met if and only if train's share of both totals reaches one; the train total is then at most one short, and exactly when it is not short |
| GateSizing.GatesAreMetIff | src/mlcache/system.py:164-198 | for both splits, the sizes are met for all totals that trigger a first fit if and only if the setup passes a check on its arguments |
| GateSizing.FirstFitMeetsItsSizes | src/mlcache/system.py:242-257 | whenever the policy starts the first fit of such a setup, its buckets meet their sizes |
| GateSizing.SplitByOneNeverFits | src/mlcache/system.py:170-182 | a batch size below 20 leaves train empty, so the gate always fails |
| GateSizing.BudgetedGateIff | src/mlcache/oracle/trainable.py:628-651 | every accept count within a budget passes the Wilson test if and only if the whole budget does |
| GateSizing.BudgetedAcceptsPass | src/mlcache/oracle/trainable.py:628-651 | a closed form that suffices: n * margin^2 >= z^2 * allowed * (1 - allowed); necessary too where target * n is whole and used up |
| GateSizing.TrainTotalCanBeOneShort | src/mlcache/system.py:247 | a fraction setup whose buckets are met and whose train total is one short |
| GateSizing.ModuloSizes | src/mlcache/system.py:170-198 | the minimums and the trigger of a modulo split, in whole numbers |
| GateSizing.SplitByOneSizes | src/mlcache/system.py:179-182 | a split by one is sized as if all pairs went to train |
| GateSizing.FractionSizes | src/mlcache/system.py:171-198 | the minimums and the trigger of a fraction split |
| GateSizing.AllowedBound | src/mlcache/system.py:192-193 | the gate allows twice the target, or the target plus 0.03 if that is more |
| GateSizing.LaterFitsWait | src/mlcache/system.py:242-257 | a later refit waits for a quarter of the trigger in new H0 pairs and half the H1 minimum in new H1 pairs |
| FitCalibration.ScoresToThreshold | src/mlcache/scorers/utils.py:52-72 | the loop over the distinct scores returns the fit threshold; no scores give +inf, a rate outside (0, 1) is an error |
| FitCalibration.FitThresholdIs | src/mlcache/scorers/utils.py:62-72 | that threshold is +inf or a score that keeps the accepts within the rate, and at most every score that does |
| FitCalibration.GroupsOfScores | src/mlcache/scorers/utils.py:62-64 | the distinct scores ascend, are exactly the scores, and their counts count the scores at or above any cut |
| FitCalibration.WithinRate | src/mlcache/scorers/utils.py:70 | the comparison of false_accepts / n with the rate is a comparison with floor(rate * n) |
| FitCalibration.FitAccepts | src/mlcache/scorers/utils.py:62-72 | a calibration score is accepted exactly when its whole tie group fits the rate, or under GE if it is +inf |
| FitCalibration.FitRefinesSelected | src/mlcache/scorers/utils.py:52-72 | on the calibration scores a fit decides like the query-level threshold of the same rate; it is that threshold rounded to a score, up under GE and down under GT |
| FitCalibration.FitKeepsBudget | src/mlcache/scorers/utils.py:65-71 | at most floor(rate * n) calibration scores are accepted if and only if the mode is GT or the +inf scores fit |
| FitCalibration.FiniteFit | src/mlcache/scorers/utils.py:52-72 | under GE the threshold is finite exactly when some finite tie group fits; it then accepts at least one calibration score, and as many as the largest group that fits |
| FitCalibration.FiniteFitUnderGT | src/mlcache/scorers/utils.py:52-72 | under GT the threshold of finite scores is always finite |
| FitCalibration.DistinctFit | src/mlcache/scorers/utils.py:52-72 | distinct finite scores use floor(rate * n) in full, and give a finite threshold exactly when that is at least one |
| FitGate.FitPassesIff | src/mlcache/oracle/trainable.py:475-506 | given its scores, a fit passes if and only if the sizes are met, some finite tie group fits the rate, and every group that fits passes the Wilson test; without such a group, only where +inf will do |
| FitGate.FitPassesUnderGTIff | src/mlcache/oracle/trainable.py:475-506 | the same for GT and finite scores, where a threshold that accepts none is found |
| FitGate.DistinctFitPassesIff | src/mlcache/oracle/trainable.py:607-668 | for distinct scores: the sizes are met, target * n >= 1, and floor(target * n) accepts pass the Wilson test |
| FitGate.SomeFitPassesIff | src/mlcache/oracle/trainable.py:607-668 | some scores let a fit pass if and only if the sizes are met, target * n >= 1 and one accept passes the Wilson test |
| FitGate.EveryFiniteFitPassesIff | src/mlcache/oracle/trainable.py:607-668 | every finite threshold passes if and only if target * n < 1, so that there is none, or floor(target * n) accepts pass the Wilson test |
| FitGate.CleanFits | src/mlcache/oracle/trainable.py:607-668 | with its sizes met, a GT fit that accepts no H0 calibration score passes; where target * n < 1 every GT fit does, and every GE fit fails because its threshold is not finite |
| FitGate.DefaultFitsNeed530 | src/mlcache/system.py:111-124 | with the default arguments the first fit is triggered at 350 H0 pairs with all sizes met, and some fit passes the gate if and only if there are at least 530 |
| FitGate.SmallSetupFindsNoThreshold | src/mlcache/system.py:164-198 | a well-sized setup at its trigger: the Wilson test would pass a clean threshold, but no calibration scores let the fit pass |
| Stopping.WithinMeansPairwise | src/mlcache/online/stopping.py:143-148 | a range is within eps if and only if some reading is finite and every two finite readings are within eps |
| Stopping.StableIff | src/mlcache/online/stopping.py:61-83 | a stable check, spelled out: the batch, the monitor data, the full window, the FPR limit, and three channels close together |
| Stopping.StatusTells | src/mlcache/online/stopping.py:56-114 | the status is stopped exactly at the patience, and otherwise says why not |
| Stopping.NoRunBeforeAWindow | src/mlcache/online/stopping.py:68-69 | the counter is zero until a full window has been seen |
| Stopping.StableRunIsTrailing | src/mlcache/online/stopping.py:61-88 | the counter is the length of the trailing run of stable check batches, for any check interval |
| Stopping.ConsumesUpToTheFirstStop | src/mlcache/online/stopping.py:57-60 | the controller takes in the shortest stopping prefix, stops with the counter exactly at the patience, and ignores the rest |
| Stopping.WindowedOnlineStoppingController.Observe | src/mlcache/online/stopping.py:56-114 | after each observation history, counter and status are those determined by all observations since the last reset |
| Stopping.WindowedOnlineStoppingController.Reset | src/mlcache/online/stopping.py:116-119 | a reset forgets everything |
| StoppingBounds.StableRunIsCalm | src/mlcache/online/stopping.py:64-83 | with every batch checked, the last `patience` observations met their FPR limit and all their windows are within eps |
| StoppingBounds.TwoEpsIffBridged | src/mlcache/online/stopping.py:143-148 | two finite readings of calm windows are within 2 * eps for all readings of a finiteness pattern if and only if the pattern bridges them |
| StoppingBounds.RemadeStops | src/mlcache/online/stopping.py:56-114 | replacing one channel of a stopping history by fitting readings with calm windows gives a history the controller stops at, no earlier |
| StoppingBounds.StopTwoEpsIffBridged | src/mlcache/online/stopping.py:56-114 | for the controller itself: over all histories it stops at with the same finite positions, two readings are within 2 * eps if and only if the finite readings bridge them |
| StoppingBounds.ConvergenceBound | src/mlcache/online/stopping.py:101-107 | what a stop guarantees about FPR limits and about each monitored reading |
| StoppingBounds.CommonReadingBridges | src/mlcache/online/stopping.py:71-83 | with patience <= window one finite reading shared by the last windows bridges everything |
| StoppingBounds.StopsFarApart | src/mlcache/online/stopping.py:143-148 | a stop with thresholds 0 and 5, a NaN between them and eps 1 |
| StoppingDrift.StableChecksAreCalm | src/mlcache/online/stopping.py:61-88 | for any check interval, a counter of p after a check means that the last p checks met their limits and found their windows within eps |
| StoppingDrift.DriftBound | src/mlcache/online/stopping.py:71-83 | readings that are finite between two observations differ by at most eps per window of a chain that connects them |
| StoppingDrift.DriftIffReached | src/mlcache/online/stopping.py:71-83 | and no less: they are within hops * eps for all calm readings if and only if that many windows reach from one to the other |
| StoppingDrift.ReachByDistance | src/mlcache/online/stopping.py:61-83 | each window of a chain covers at least window - check_every observations |
| StoppingDrift.ReachByChecks | src/mlcache/online/stopping.py:61-83 | where successive windows overlap, one window per check reaches the end |
| StoppingDrift.StopDrift | src/mlcache/online/stopping.py:56-114 | a stop, for any check interval: FPR limits at the last checks, and drift by at most eps per window needed |
| CacheSystem.SemanticCacheSystem.ReadPolicy | src/mlcache/system.py:345-364 | reading the policy advances the scorer version exactly when the active scorer changed |
| CacheSystem.SemanticCacheSystem.Handle | src/mlcache/system.py:265-306 | a request reads the policy and is counted by its source, unless the LLM raises |
| CacheSystem.SemanticCacheSystem.Freeze | src/mlcache/system.py:396-408 | freezing keeps the first reason and turns refitting off |
| CacheSystem.SemanticCacheSystem.MaybeCheckStopping | src/mlcache/system.py:414-453 | a check feeds the empirical rates to the controller and freezes on a stop; frozen or uncalibrated systems check nothing |
| CacheSystem.CheckObserves | src/mlcache/system.py:414-448 | a check appends one observation, whose FPR is the share of the H0 calibration scores at or above the threshold and whose TPR that of the H1 scores, or changes nothing |
| CacheSystem.SemanticCacheSystem.Run | src/mlcache/system.py:308-327 | a run serves up to the first limit or the first LLM failure, checking after every batch, and ends with a report that reads the policy |
| SystemRuns.RequestsAreCounted | src/mlcache/system.py:339-341 | every request answered is counted once, by its source, and those the LLM failed are not |
| SystemRuns.VersionsCountSwaps | src/mlcache/system.py:359-364 | in every reachable state the scorer version counts the stretches of policy reads, by requests, reports or callers, that saw one scorer |
| SystemRuns.RunLength | src/mlcache/system.py:317-326 | a run serves min(stream, max(1, max_requests)) requests, and fewer if and only if before that some request finds the LLM raising or follows the update limit; it ends with the raise exactly when the update limit did not come first |
| SystemRuns.FreezeIsFinal | src/mlcache/system.py:396-418 | after a freeze reason, updates and monitoring history never change again |
| SystemRuns.CheckKeepsSound | src/mlcache/system.py:414-453 | a check keeps the lifecycle invariant: one finite observation per update in order, refitting off exactly when frozen, frozen by convergence exactly when the controller stopped |
| SystemRuns.ServingKeepsSound | src/mlcache/system.py:308-327 | and so does any number of requests |
| SystemRuns.ReachedIsSound | src/mlcache/system.py:308-453 | the invariant holds in every state reached by runs, manual freezes and policy reads |
| SystemRuns.ReachedIsMonitored | src/mlcache/system.py:414-448 | in every reachable state each observation is that of calibration scores some request of the history offered |
| SystemRuns.UpdatesCountBatches | src/mlcache/system.py:317-326 | one update per full batch, while nothing raises, hides a monitor or freezes |
| SystemRuns.RunReaches | src/mlcache/system.py:308-327 | a run from a reachable state, report included, ends in a reachable state |
| SystemRuns.ConvergedFreeze | src/mlcache/system.py:452-453 | in every reachable state, for every check interval, window and patience: a freeze by convergence happens at a check, the last `patience` checks found FPRs within target plus margin, and TPR, FPR and threshold moved by at most eps per window needed, at most `patience` where windows overlap |
| SystemRuns.FrozenFalseAccepts | src/mlcache/system.py:430-453 | at each of those checks at most the fraction target + margin of the monitored H0 scores reached the threshold |
| SystemRuns.EveryUpdateChecked | src/mlcache/system.py:452-453 | with every update checked and patience <= window, by at most 2 * eps over the last window + patience - 1 updates |

## Left out

- LLM clients, HTTP gateways, prompts, embeddings and the command line: network, text and library wrappers.
- Scorer training, vector search and the fit worker of the trainable oracle: only its calibration and its activation gate are modelled; the oracle is otherwise an arbitrary decision and a set of indexed keys.
- SQL gateways, file and JSON persistence, the outbox indexer and the simple record stores.
- Experiment and diagnostic scripts, stream orderings, and the derived ratios of the metrics summary and of the system report.
- Floating-point rounding: arithmetic on rates, weights and readings is exact. The modulo split's calibration fraction is exactly 1/N here, while the code subtracts two doubles, which can move a trigger total or a minimum by one.
- NaN scores: scores are ordered. Monitor readings of the stopping controller may be NaN or infinite; its target rate and epsilons are finite.
- Wall-clock fields and free-form metadata. Elapsed seconds of the refit policy are inputs.
- Thread scheduling: lock-protected blocks are atomic steps and concurrent judging is the sequence of its results.
- Whitespace: the query texts compared to skip self pairs are taken as already stripped.
- Invalidation and lost keys in EvictionTraces: its traces are puts and hits; GatewayRuns and EvictionHistory cover them.
- The window of a metrics object that never takes snapshots may be empty; a snapshot needs a positive window.
- TrainingStore.SplitBuckets.AddToBucket: the bucket, key list and counter of a split are fields of one object here; the code passes them as separate lists, so aliasing between them is not captured.
- AuditPolicy.MarginBandAuditPolicy.Decide: does not model the distribution of the draws, only their number and order.
- The free-form metadata of a query calibration record, and the store that keeps the records.
