# Arbitrage engine verification

A Dafny model of the stateful core of the arbitrage engine, with proofs. `dafny verify
dfyconfig.toml` checks all of it; nothing here is executed.

## What is modelled

- **Evaluation scheduler** (`Scheduler*.dfy`, `EvaluationScheduler.dfy`). Every cycle divides a
  global budget among routes by weighted rounds under per-route caps, keeps a held target window
  per route with a deadline (restored from a cache, rebound after a re-plan, resized when the budget
  changes, rebuilt on expiry), fills windows from recently executable evaluations and a rotating
  cursor, and interleaves the active choices. `EvaluationScheduling.EvaluationScheduler` is the
  imperative class with the original's dictionaries and loops; the functions in `SchedulerRoute` and
  `SchedulerCycle` are the reference it is proved equal to, and the theorems about whole runs are
  about that reference. The configuration ranges are those of `src/arbitrage_engine/config.py:1338-1381`.
- **Publication** (`Publication.dfy`). A cycle as atomic steps between suspension points, any of
  which may raise or be cancelled, over that scheduler and the market registry's generation.
- **Calibration** (`CalibrationHistory.dfy`, `CalibrationGate.dfy`). The pruned observation deque
  against the full history, and the histogram p95 with its release gate.
- **External baselines and reconciliation** (`DecimalText.dfy`, `DecimalValue.dfy`, `Text.dfy`,
  `DecimalColumn.dfy`, `ExternalBaseline.dfy`, `BaselineStore.dfy`, `BaselineReadBack.dfy`,
  `ReconciliationGate.dfy`, `ProductionRepository.dfy`, `BaselineCapture.dfy`). The canonical payload down to its decimal text, activation, revocation and
  read-back over tables, the fail-closed gate, and the capture behind a baseline.
- **Market mappings** (`MarketCandidates.dfy`, `MappingLifecycle.dfy`, `CandidateCache.dfy`,
  `MarketRepository.dfy`, `MappingIndex.dfy`). Discovery upserts and operator actions, the signature cache, the mapping index.
- **Log framing** (`LogFraming.dfy`). The multiplexed "Stream format" of the Docker Engine API,
  ContainerAttach operation.

`Collections.dfy` and `Modular.dfy` hold the sequence and remainder facts that several of these share.

Where an operation is proved equal to a reference function, that function is in turn characterised in the
fields of its inputs (rows such as `BestSpreadFirst`, `MixIs`, `AllocateIs`, `PrepareMeans`,
`VenueClearInColumns`, `FillsListed`, `KnownMappingIs`, `ReportsP95Iff`): literal texts and numbers,
columns and positions, without the functions that compute them. `SchedulerPolicy.dfy` does this for a whole cycle.

## Main results

- Scheduler, each cycle: `SelectExact`, `ActiveWithinTarget`, `NothingWasted`, `AllocateIs`, `MixIs`,
  `DealtInTurn`, and `SelectEvaluationWindow` for the imperative class; `CollectingEndsIff` for plans of any kind.
- Scheduler, whole runs: `CacheTransparency`, `OnlyCurrentPlanReturned`, `HoldOverRuns`,
  `TargetsNotStarved`, `WindowMembersActivated`, `EveryRouteServed`.
- Publication: `PublishedIsSynced`, `SelectedIsCurrent`, `PrepareMeans`.
- Calibration: `PrunedReference`, `P95Meaning`, `PassedRouteIsBounded`.
- Baselines: `NormalForm`, `PayloadIsFixedPoint`, `EveryBaselineReadsBack`, `CapturedRoundTrip`,
  `RecapturedRoundTrip`, `CapturableIff`, `CaptureConservesIff` with `FillsListed`.
- Reconciliation gate: `GateOpenIff` with `VenueClearInColumns`, `LatestReconciliationFailures`, `ActivationClosesGate`,
  `MixedCaseManifestLocksVenue`.
- Mappings: `VerifiedHasHistory`, `TransparentIff`, `AlwaysTransparentIff`, `UndisturbedIffCompatible`,
  `ApplyVerifiedMappingSnapshot`.
- Framing: `DecodeEncoded`, `DecodeUnframed`, `ParsesIffFramed`.

## What the proofs found

Where a natural property fails, the exact condition is proved, and a concrete case beside it.

- The collecting loop of a cycle ends only if every route's active list has exactly its slot count,
  which repeated targets can prevent: exactly when is `CollectingEndsIff`, in terms of plan,
  configuration and recency table `BuiltWindowDeliversIff` and `UnheldCollectingEndsIff`, by
  configuration alone `NothingFirstAlwaysEnds`; a cycle that does not end is `RepeatedTargetsNeverEnd`.
  The other theorems about whole cycles and runs assume distinct targets within a route.
- A target window leaves exploration no slot exactly when every member of the pool is recently
  executable (`ExplorationSlotIff`); starvation freedom therefore counts exploration slots.
- The reported p95 is floored at 0.0001, so it is the least bucket bound that holds 95% exactly when
  no bound below the floor does (`P95Meaning`, `ExportedP95IsLeastIff`, `FloorExceedsLeastBound`).
- The gate demands a latest run and a full run only of venues that are named in the scope; an
  unscoped gate does not miss them, and a scope configured as empty checks nothing (`GateOpenIff`,
  `EmptyScopeIsOpen`). A baseline without evidence closes the gate for venues that are named or have
  some full run (`ActivationClosesGate`) and no others (`UndemandedClearIff`,
  `UnscopedActivationLeavesOpen`).
- Activation compares the manifest without regard to case, read-back and revocation exactly. An
  upper-case manifest activates, never reads back and cannot be revoked (`MixedCaseActivates`,
  `MixedCaseManifestLocksVenue`, `ActivateRevokeActivate`).
- A quantity of more than 18 decimal places activates and never reads back (`EveryBaselineReadsBack`,
  `CapturedKeptIff`, `SampleNeverReadsBack`).
- A capture conserves every token exactly when each excess is trimmed in name and survives rounding to
  28 digits (`CaptureConservesIff`, `ConservableIff`); a token with surrounding space, an excess from
  10^20 on, and one just above the tolerance can be lost (`SpacedTokenIsLost`, `LargeHoldingIsLost`,
  `MarginalHoldingIsLost`).
- A fill whose order identifier carries surrounding space is never recognised as the bot's own
  (`QueriesRecognise`).
- The signature of a candidate does not tell an absent optional text from an empty one, and sorts
  venues whose order the mapping row keeps; and a batch can list a key under two signatures. Exactly
  which candidates the cache treats rightly is `ReplacesIff`, `TransparentIff` and
  `AlwaysTransparentIff`; the failing runs are `EmptyCategoryIsSkipped`, `SwappedLegsAreSkipped` and
  `ReversionIsSkipped`.

## Model

| member | source | states |
|---|---|---|
| SchedulerRotation.ExploreLength | src/arbitrage_engine/engine.py:1326-1338 | an exploration returns as many members as asked for iff the list holds that many members outside the excluded keys, duplicates or not |
| SchedulerRotation.ExploreCovers | src/arbitrage_engine/engine.py:1331-1337 | whatever the cursor passes was excluded or selected: rotation skips nothing |
| SchedulerRotation.ExplorationWalk | src/arbitrage_engine/engine.py:1326-1338 | read cyclically from the cursor, an exploration selects in order the members whose targets are not excluded, skips only excluded ones, stops behind the last it needs or after a full turn, and the cursor is where it stopped |
| SchedulerWindow.RankRecentSorts | src/arbitrage_engine/engine.py:1356-1363 | no member is outranked by a later one; what outranks is BestSpreadFirst |
| SchedulerWindow.RankRecentIsStable | src/arbitrage_engine/engine.py:1356-1363 | equal ranks keep plan order, so with the previous row the ranking is unique |
| SchedulerWindow.RecentCandidatesAreRanked | src/arbitrage_engine/engine.py:1340-1363 | the candidates are ranked members of the list, and distinct targets stay distinct |
| SchedulerWindow.BestSpreadFirst | src/arbitrage_engine/engine.py:1356-1363 | of two candidates the earlier has the higher net spread, or an equal one and the later observation, or equal both and the earlier place in the plan |
| SchedulerWindow.CandidateIff | src/arbitrage_engine/engine.py:1346-1355 | a member is a candidate, as often as it is listed, iff it was observed no longer ago than the route's priority time: its own setting, else the general one if positive, else its hold time; none when that is not positive |
| SchedulerRoute.MixExact | src/arbitrage_engine/engine.py:1279-1293 | over distinct targets a mix of priority and exploration has exactly the requested size, comes from the pool and repeats nothing |
| SchedulerRoute.ExplorationSlotIff | src/arbitrage_engine/engine.py:1365-1371 | a mix leaves exploration a slot iff some pool member is not recently executable |
| SchedulerRoute.MixIs | src/arbitrage_engine/engine.py:1279-1293 | a mix leads with its k best candidates, none of them with a lower net spread than a candidate left out, and explores past them for the rest; k is what the route's exploration fraction of the count, rounded up, leaves room for, with one slot of several kept for a candidate unless the fraction is one |
| SchedulerRoute.ResizeExact | src/arbitrage_engine/engine.py:1412-1428 | a warm window of distinct planned evaluations can be resized to any size the plan allows; the size check never fails |
| SchedulerRoute.RestoreIff | src/arbitrage_engine/engine.py:1393-1431 | the held window survives iff there is one, its deadline has not come and every held key is still planned |
| SchedulerRoute.SurvivesIff | src/arbitrage_engine/engine.py:1393-1411 | a held window survives iff there is one, its deadline has not come, and every held key is planned and held once |
| SchedulerRoute.RestoreKeeps | src/arbitrage_engine/engine.py:1412-1431 | a surviving window has the expected size, keeps its first min(old, new) members in order, and neither deadline nor active cursor moves |
| SchedulerRoute.RouteStepExact | src/arbitrage_engine/engine.py:1207-1251 | one route, one cycle: target window of exactly the prefetch size, active list of exactly the slot count, active in target in plan, no repeats, cache coherent again |
| SchedulerRoute.IdleStepIs | src/arbitrage_engine/engine.py:1209-1219 | a route without slots loses window, deadline and active cursor and keeps its exploration cursor |
| SchedulerRoute.KeptStepIs | src/arbitrage_engine/engine.py:1412-1431 | a surviving window of that size keeps its deadline and its first keys in order and explores past them for the rest; the active choice continues from the active cursor |
| SchedulerRoute.BuiltStepIs | src/arbitrage_engine/engine.py:1229-1251 | a rebuilt window is a mix of the plan, of size slots times the route's prefetch setting or the plan, under a deadline one hold time of the route away; the active choice is a mix of it that starts at its beginning |
| SchedulerRoute.RouteStepIgnoresCache | src/arbitrage_engine/engine.py:1397-1431 | a coherent cache changes neither what a route step returns nor the state it leaves, the cache itself aside |
| SchedulerAllocation.AllocateExact | src/arbitrage_engine/engine.py:1158-1183 | weighted rounds hand out exactly min(budget, sum of caps) slots, no route above its cap |
| SchedulerAllocation.FirstRouteServed | src/arbitrage_engine/engine.py:1167-1183 | the first route in order always gets a slot |
| SchedulerAllocation.AllocateFair | src/arbitrage_engine/engine.py:1158-1183 | if r ends below its cap, every s has at most weight(s) * (slots(r) / weight(r) + 1) slots |
| SchedulerAllocation.AllocateIs | src/arbitrage_engine/engine.py:1158-1183 | the allocation exactly: after k full passes one ends at a route; those before it have k + 1 times their weight, those behind it k times, but for their caps, and it itself is in between |
| SchedulerInterleave.InterleaveIsPermutation | src/arbitrage_engine/engine.py:1253-1264 | interleaving keeps every list member exactly as often as it occurs |
| SchedulerInterleave.InterleaveOrder | src/arbitrage_engine/engine.py:1253-1264 | the interleaving lists every member once, by its position in its list and then by its list |
| SchedulerInterleave.LoopEndsIff | src/arbitrage_engine/engine.py:1255-1264 | the collecting loop reaches its goal iff the lists hold that many members; otherwise its guard is true after any number of rounds |
| SchedulerCycle.SelectExact | src/arbitrage_engine/engine.py:1128-1270 | from any coherent state a cycle returns exactly min(max(1, limit), n, total capacity) active evaluations without repeats |
| SchedulerCycle.ActiveWithinTarget | src/arbitrage_engine/engine.py:1253-1270 | every active evaluation is in the returned target window, every target in the plan |
| SchedulerCycle.ActivePerRoute | src/arbitrage_engine/engine.py:1158-1264 | each route has exactly its slots among the active evaluations, within its cap and its plan |
| SchedulerPolicy.RoutesByAppearance | src/arbitrage_engine/engine.py:1112-1120 | the routes of a plan, each once, in the order in which they first appear |
| SchedulerPolicy.RouteInPlanOrder | src/arbitrage_engine/engine.py:1112-1120 | a route's evaluations are exactly those of the plan on it, in plan order |
| SchedulerPolicy.NothingWasted | src/arbitrage_engine/engine.py:1142-1183 | no route has more active evaluations than its setting and plan allow, nothing repeats, and if fewer than the budget are active then every route has all it may have |
| SchedulerPolicy.SlotsAre | src/arbitrage_engine/engine.py:1142-1183 | routes are visited in order of first appearance from the cursor on, capped by plan and setting, weighted by theirs, with a budget of the limit, at least one and at most the plan |
| SchedulerPolicy.CycleRemembers | src/arbitrage_engine/engine.py:1196-1205 | an observation outlives a cycle iff its evaluation is planned and it is no older than the route's priority time |
| SchedulerPolicy.DepartedForgotten | src/arbitrage_engine/engine.py:1184-1194 | a route that is not in the plan has no entry left in any of the five tables, and the route cursor moves by one |
| SchedulerPolicy.CycleStepsRoute | src/arbitrage_engine/engine.py:1209-1251 | a cycle does to each planned route one step from the route's own entries, with the observations still remembered |
| SchedulerPolicy.DealtInTurn | src/arbitrage_engine/engine.py:1253-1264 | active evaluations are dealt in turn: each route's first choice from the route under the cursor on, then each route's second, and so on |
| SchedulerPolicy.WindowsInTurn | src/arbitrage_engine/engine.py:1265-1269 | the target window lists the routes' windows one after the other, from the route under the cursor on |
| SchedulerCycle.SelectKeepsInv | src/arbitrage_engine/engine.py:1128-1270 | a cycle keeps the invariant: the cached window is what rebinding the held keys gives |
| SchedulerRuns.RunKeepsInv | src/arbitrage_engine/engine.py:1111-1431 | every state reached by re-plans, recency marks and cycles satisfies that invariant |
| SchedulerRuns.CacheTransparency | src/arbitrage_engine/engine.py:1397-1430 | in every such state emptying the window cache changes neither a cycle's answer nor the state after it |
| SchedulerRuns.OnlyCurrentPlanReturned | src/arbitrage_engine/engine.py:1111-1126 | after a re-plan and any marks and cycles, only evaluations of the plan last installed are returned |
| SchedulerRuns.HoldDiscipline | src/arbitrage_engine/engine.py:1222-1243 | one cycle of a route with slots: a window that survives keeps its deadline and its first min(old, new) keys in order, any other is rebuilt under a new deadline |
| SchedulerRuns.HoldOverRuns | src/arbitrage_engine/engine.py:1222-1243 | over runs: from one rebuild to the next, whatever re-plans, marks and cycles lie between, a route's deadline is the same, and so are its first k keys while the budget leaves the window k members |
| SchedulerRuns.DisturbedStep | src/arbitrage_engine/engine.py:1209-1243 | any other cycle starts a new deadline, or leaves the route without one |
| SchedulerLiveness.TargetsNotStarved | src/arbitrage_engine/engine.py:1272-1338 | once the builds of a run have left a route as many exploration slots as it has evaluations, the targets of each have been in a target window, through re-plans that bring the route the same targets in order; under a fixed plan so has the evaluation itself |
| SchedulerLiveness.CeilBuildsSuffice | src/arbitrage_engine/engine.py:1272-1338 | in particular ceil(n / e) builds that each leave e slots reach all n targets |
| SchedulerLiveness.WindowMembersActivated | src/arbitrage_engine/engine.py:1295-1316 | while a route keeps one window h and rotation gets as many non-priority active slots as h has members, every member of h is active |
| SchedulerLiveness.CeilSelectionsSuffice | src/arbitrage_engine/engine.py:1295-1316 | in particular ceil(size of h / e) selections that each leave rotation e slots |
| SchedulerLiveness.EveryRouteServed | src/arbitrage_engine/engine.py:1158-1183 | with a fixed plan every route gets a slot in any run of as many consecutive cycles as there are routes |
| SchedulerLiveness.RoutesShareFairly | src/arbitrage_engine/engine.py:1158-1183 | the fairness bound for the planned routes of a cycle, in terms of caps and weights |
| SchedulerCollecting.MixDeliversIff | src/arbitrage_engine/engine.py:1279-1293 | without assuming distinct targets: a mix delivers its count iff enough members carry keys that priority has not taken |
| SchedulerCollecting.CollectingEndsIff | src/arbitrage_engine/engine.py:1207-1264 | for any plan and state: the collecting loop of a cycle ends iff the target window of every route with slots has, besides the members that go first, enough members with other targets |
| SchedulerCollecting.BuiltWindowDeliversIff | src/arbitrage_engine/engine.py:1272-1316 | for a window built in the cycle that condition is told by plan, configuration and recency table, whatever the cursors, but for whether the window holds fresh members alone |
| SchedulerCollecting.UnheldCollectingEndsIff | src/arbitrage_engine/engine.py:1207-1264 | the loop of a cycle that starts without held windows ends iff every route's build meets that condition |
| SchedulerCollecting.NothingFirstAlwaysEnds | src/arbitrage_engine/engine.py:1281-1282 | where priority is off, exploration takes all, or a route has one slot, the loop ends for every plan in every state |
| SchedulerCollecting.RepeatedTargetsNeverEnd | src/arbitrage_engine/engine.py:1255-1264 | a concrete state, plan with repeated targets, limit and time: three slots are allocated and no number of rounds collects three evaluations |
| EvaluationScheduling.WalkFrom | src/arbitrage_engine/engine.py:1328-1338 | the cyclic walk selects and examines exactly what the reference walk over the rotated list does |
| EvaluationScheduling.SelectRotatingExploration | src/arbitrage_engine/engine.py:1318-1338 | returns the reference exploration and stores its cursor, or leaves the cursors alone when nothing is asked |
| EvaluationScheduling.RebindKeys | src/arbitrage_engine/engine.py:1403-1411 | the per-key queues give the same window as taking, key by key, the first evaluation not yet taken |
| EvaluationScheduling.GroupByRoute | src/arbitrage_engine/engine.py:1112-1120 | routes in order of first appearance, each with its evaluations in plan order |
| EvaluationScheduling.TargetsForEvaluations | src/arbitrage_engine/engine.py:1433-1440 | per venue exactly the non-empty tokens the evaluations name |
| EvaluationScheduling.AllocateSlots | src/arbitrage_engine/engine.py:1158-1183 | the slot loops compute the reference allocation |
| EvaluationScheduling.CollectActive | src/arbitrage_engine/engine.py:1253-1264 | the collecting loop terminates and returns the complete interleaving, given lists as long as their slots |
| EvaluationScheduling.ForgetObservations | src/arbitrage_engine/engine.py:1196-1205 | exactly the observations that are unplanned, expired or without priority are dropped |
| EvaluationScheduling.EvaluationScheduler.SetPlannedEvaluations | src/arbitrage_engine/engine.py:1111-1126 | installs plan, index and key set and empties the cache unless the very same object was held |
| EvaluationScheduling.EvaluationScheduler.MarkRecentExecutable | src/arbitrage_engine/engine.py:1373-1382 | records the observation, nothing else |
| EvaluationScheduling.EvaluationScheduler.BuildPrioritizedRouteWindow | src/arbitrage_engine/engine.py:1272-1293 | the reference mix, moving only this route's exploration cursor |
| EvaluationScheduling.EvaluationScheduler.SelectPrioritizedActive | src/arbitrage_engine/engine.py:1295-1316 | the reference mix over the held window, moving only this route's active cursor |
| EvaluationScheduling.EvaluationScheduler.RestoreHeldRouteWindow | src/arbitrage_engine/engine.py:1384-1431 | the reference restore: same result, same keys, cache and cursor |
| EvaluationScheduling.EvaluationScheduler.StepRoute | src/arbitrage_engine/engine.py:1207-1251 | the route loop body is the reference step on this route |
| EvaluationScheduling.EvaluationScheduler.PruneState | src/arbitrage_engine/engine.py:1184-1205 | departed routes and stale observations are forgotten, all else kept |
| EvaluationScheduling.EvaluationScheduler.SelectEvaluationWindow | src/arbitrage_engine/engine.py:1128-1270 | the whole imperative cycle returns and leaves exactly what the reference cycle does, and keeps the class invariant |
| Publication.FundedTargets | src/arbitrage_engine/engine.py:930-945 | the funded routes, and on each exactly the targets with a token that some active evaluation on it has |
| Publication.TransitionalTargets | src/arbitrage_engine/engine.py:946-953 | the next window's tokens together with every token still published |
| Publication.ArbitrageEngine.SyncMarketDataTargets | src/arbitrage_engine/engine.py:1025-1046 | up to the venue whose client raises, each venue's synced set becomes its wanted one; later venues keep theirs |
| Publication.ArbitrageEngine.BeginCycle | src/arbitrage_engine/engine.py:537-540 | the start of a cycle re-syncs the entry targets and touches nothing published |
| Publication.ArbitrageEngine.PrepareCycle | src/arbitrage_engine/engine.py:921-966 | re-plans unless snapshot and generation are unchanged, selects, and widens the subscription before the awaits |
| Publication.ArbitrageEngine.PublishWindow | src/arbitrage_engine/engine.py:967-976 | publishes entry and funded targets and syncs, with no suspension in between |
| Publication.BeginMeans | src/arbitrage_engine/engine.py:537-548 | the start of a cycle subscribes a venue before the raising one to exactly its entry and open tokens |
| Publication.PrepareMeans | src/arbitrage_engine/engine.py:921-945 | preparation selects from the plan on offer; the funded routes hold exactly the targets with a token of their active evaluations, the entry table exactly the tokens of the target window, and what is published stays |
| Publication.PrepareWidens | src/arbitrage_engine/engine.py:946-960 | preparation subscribes a venue before the raising one to exactly the next window's tokens, those still published and those of open positions, and leaves the others |
| Publication.PublishMeans | src/arbitrage_engine/engine.py:967-976 | publication installs both tables, and a venue before the raising one is subscribed to exactly its entry and open tokens |
| Publication.PublishedIsSynced | src/arbitrage_engine/engine.py:925-976 | in every moment of every behaviour, with exceptions and cancellations at any step, published funded tokens of each of the five venues are synced there, and nothing is synced under any other label |
| Publication.SelectedIsCurrent | src/arbitrage_engine/discovery_lifecycle.py:123-144 | whatever a cycle selects was planned from the snapshot and generation on offer at that moment, however these change |
| CalibrationHistory.PrunedReference | src/arbitrage_engine/engine.py:256-293 | searching the pruned deque finds the same reference as searching the full history, at any later time too |
| CalibrationHistory.ReferenceIsLatest | src/arbitrage_engine/engine.py:256-293 | the reference is the spread of the latest recorded observation at least the horizon and at most max(30, 2h) seconds old |
| CalibrationHistory.AdverseMoveIs | src/arbitrage_engine/engine.py:283-293 | an adverse move is how far the spread fell from the reference, zero when it did not fall |
| CalibrationHistory.PopOld | src/arbitrage_engine/engine.py:256-293 | the pruning loop drops exactly the leading observations older than the retention |
| CalibrationHistory.SearchBackwards | src/arbitrage_engine/engine.py:256-293 | the backward loop returns the last observation not after the cutoff |
| CalibrationHistory.CalibrationRecorder.Record | src/arbitrage_engine/engine.py:256-293 | judges by the full history, records only a changed observation, and leaves other keys alone |
| CalibrationGate.RouteCounters | scripts/shadow_calibration.py:71-76 | per route the last counter sample |
| CalibrationGate.RouteBuckets | scripts/shadow_calibration.py:79-89 | per route and bound the last bucket sample |
| CalibrationGate.CounterIs | scripts/shadow_calibration.py:71-76 | a counter is the value of the last sample under the counter metric's name with its route |
| CalibrationGate.BucketIs | scripts/shadow_calibration.py:79-89 | a bucket is the value of the last sample under the bucket metric's name with its route and bound |
| CalibrationGate.FirstCovering | scripts/shadow_calibration.py:210-214 | the least finite bound whose cumulative difference reaches the target, or none |
| CalibrationGate.EvaluateRoute | scripts/shadow_calibration.py:202-230 | a route passes iff it has enough evaluations, something observed in the window and a p95, without a counter reset; each blocker stands for one of these |
| CalibrationGate.ReportsP95Iff | scripts/shadow_calibration.py:207-214 | no p95 without observations or a covering bucket; else the least covering bound, but at least 0.0001 |
| CalibrationGate.CoversIff | scripts/shadow_calibration.py:204-212 | a finite bucket covers iff it grew over the window by at least 95% of what the infinite one grew by |
| CalibrationGate.CalibrationReport.constructor | scripts/shadow_calibration.py:189-232 | the report judges each requested route by its own samples and passes iff all do |
| CalibrationGate.CalibratedIff | scripts/shadow_calibration.py:202-230 | calibration accepts a route iff its counters and buckets, zero where missing, show enough evaluations, observations and a p95 |
| CalibrationGate.CalibrationReport.ValidateConfiguredReserves | scripts/shadow_calibration.py:235-257 | passes iff it passed before and every route has a positive reserve of its own not below its observed p95 |
| CalibrationGate.P95Meaning | scripts/shadow_calibration.py:207-214 | of the window's observations at least 95 in 100 are at most the reported p95, a bucket bound or 0.0001; every smaller bucket bound holds fewer iff every bound below 0.0001 does |
| CalibrationGate.ExportedP95IsLeastIff | scripts/shadow_calibration.py:19-19 | with the exporter's eleven bounds the p95 is one of them, and the least that holds 95 in 100 iff fewer saw no adverse move |
| CalibrationGate.FloorExceedsLeastBound | scripts/shadow_calibration.py:213-213 | a window of one zero: the bound 0.0 holds it and the report is 0.0001 |
| CalibrationGate.P95Exists | scripts/shadow_calibration.py:207-214 | a p95 is reported iff the window has observations and some bucket bound is above or at 95 in 100 of them |
| CalibrationGate.CountIs | scripts/shadow_calibration.py:207-212 | the counts of these statements count positions of the window |
| CalibrationGate.PassedRouteIsBounded | src/arbitrage_engine/config.py:219-222 | end to end: a route passing calibration and the reserve check made enough evaluations, has a positive reserve and a threshold of at least its p95 plus the buffer and its floor, and at least 95 in 100 observations of the window are at most that p95 |
| CalibrationGate.ThresholdIs | src/arbitrage_engine/config.py:219-222 | the threshold is the higher of the route's floor and its reserve, or the general one, plus the safety buffer |
| LogFraming.ParseSound | scripts/live_canary_window.py:316-325 | what parses re-encodes to the very bytes |
| LogFraming.ParseComplete | scripts/live_canary_window.py:316-325 | every list of valid frames is recovered from its encoding |
| LogFraming.ParsesIffFramed | scripts/live_canary_window.py:320-325 | bytes parse iff they are the encoding of some frames |
| LogFraming.ParseAccounts | scripts/live_canary_window.py:315-324 | the bytes parsed are eight for each frame plus its payload, so there are at most an eighth as many frames as bytes |
| LogFraming.DecodeDockerLogStream | scripts/live_canary_window.py:310-326 | the loop returns the frame texts joined, or the whole payload decoded at the first deviation |
| LogFraming.EncodedFrameIs | scripts/live_canary_window.py:316-319 | a frame is encoded as its stream number, three zeros, its size in base 256 and its payload |
| LogFraming.HeaderIff | scripts/live_canary_window.py:316-321 | a header is a stream number of at most 2, three zeros and a size, most significant byte first, that fits what is there; the frame is that stream and payload |
| LogFraming.BadHeaderDecodedWhole | scripts/live_canary_window.py:320-325 | bytes that start with a stream above 2, a non-zero filler, a size that overshoots, or fewer than eight bytes are decoded whole |
| LogFraming.FirstFrameDecoded | scripts/live_canary_window.py:315-323 | a header at the start contributes its frame's text if the rest is framed too; else all is decoded whole |
| LogFraming.DecodeEncoded | scripts/live_canary_window.py:310-326 | decoding an encoding gives the concatenated texts |
| LogFraming.DecodeUnframed | scripts/live_canary_window.py:320-325 | non-empty bytes that are no exact framing are decoded whole |
| LogFraming.EncodeInjective | scripts/live_canary_window.py:315-323 | bytes are the framing of at most one list of frames |
| DecimalText.PrintAlikeIff | src/arbitrage_engine/external_baseline.py:84-87 | two decimals print the same iff their 28-digit normal forms are equal |
| DecimalText.RoundByIsHalfEven | src/arbitrage_engine/external_baseline.py:85-85 | rounding by k digits gives the nearest multiple of 10^k, of two nearest ones the even one |
| DecimalText.RoundToContextIs | src/arbitrage_engine/external_baseline.py:85-85 | normalising keeps 28 digits: a coefficient of 28 + k digits is rounded by k |
| DecimalText.ParsesInBaseTen | src/arbitrage_engine/external_baseline.py:84-87 | digits are read in base ten and each one behind the point lowers the exponent by one |
| DecimalText.CanonicalShape | src/arbitrage_engine/external_baseline.py:84-87 | the text is digits with at most one point, starts with a zero only before the point, and has behind the point something that ends in no zero |
| DecimalText.ParseCanonical | src/arbitrage_engine/external_baseline.py:84-87 | parsing the text recovers the normal form's value |
| DecimalText.CanonicalIdempotent | src/arbitrage_engine/external_baseline.py:84-87 | printing what was parsed gives the same text |
| DecimalText.PrintingIsExactIff | src/arbitrage_engine/external_baseline.py:84-87 | parsing the text recovers the value itself iff it needs at most 28 significant digits |
| DecimalText.WithinContextPrintAlikeIff | src/arbitrage_engine/external_baseline.py:84-87 | within 28 digits texts are equal iff values are |
| ExternalBaseline.AcceptedIff | src/arbitrage_engine/external_baseline.py:27-60 | accepted iff identity, account digest, every token, quantity and fill reference are valid and none repeats after trimming |
| ExternalBaseline.AcceptedInFields | src/arbitrage_engine/external_baseline.py:26-60 | the same in characters and numbers: 64 hexadecimal digits, keys of 1 to 256 characters, positive quantities, no repetition |
| ExternalBaseline.PayloadIs | src/arbitrage_engine/external_baseline.py:26-71 | the payload lists each position once under its trimmed token in canonical text and each trimmed reference once, in code-point order, with the account in lower case |
| ExternalBaseline.PositionFaultIs | src/arbitrage_engine/external_baseline.py:37-46 | a position is faulty iff its token is empty or over 256 characters, else iff an earlier token is the same, else iff its quantity is not a positive number |
| ExternalBaseline.FillRefFaultIs | src/arbitrage_engine/external_baseline.py:53-60 | a reference is faulty iff empty or over 256 characters, else iff an earlier one is the same, after trimming |
| ExternalBaseline.RefusalIs | src/arbitrage_engine/external_baseline.py:29-60 | the first refusal: identity, then account, then the first faulty position, then the first faulty reference |
| ExternalBaseline.CollectPositions | src/arbitrage_engine/external_baseline.py:34-50 | the position loop reports the first fault in input order, else the trimmed and printed entries |
| ExternalBaseline.CollectFillRefs | src/arbitrage_engine/external_baseline.py:51-60 | likewise for fill references |
| ExternalBaseline.CanonicalPayload | src/arbitrage_engine/external_baseline.py:18-71 | the whole procedure returns the canonical payload or the first refusal |
| Text.TrimIs | src/arbitrage_engine/external_baseline.py:26-28 | trimming drops exactly the white space at both ends |
| Text.LowerIs | src/arbitrage_engine/external_baseline.py:28-28 | lower-casing adds 32 to the code points of A to Z and keeps all others |
| Text.BeforeIff | src/arbitrage_engine/external_baseline.py:62-63 | one string sorts before another iff at the first difference it ends or has the smaller code point |
| ExternalBaseline.NormalForm | src/arbitrage_engine/external_baseline.py:18-71 | accepted inputs in any order give equal payloads iff identity, token-to-value map and fill-reference set agree |
| ExternalBaseline.NormalFormByValue | src/arbitrage_engine/external_baseline.py:18-71 | within 28 digits equal payloads mean tokens paired with equal values, however the quantities are written |
| ExternalBaseline.PayloadIsFixedPoint | src/arbitrage_engine/external_baseline.py:18-71 | the contents a payload lists are accepted and give that payload again |
| BaselineStore.RunsKeepInv | src/arbitrage_engine/database.py:414-447 | over every run: manifests unique, items owned, at most one active baseline per runtime and venue |
| BaselineStore.ActivationRefusals | src/arbitrage_engine/database.py:1592-1603 | activation is refused for another runtime, for refused contents, and for a manifest that is not their digest in any casing |
| BaselineStore.HeldActivation | src/arbitrage_engine/database.py:1604-1621 | while a baseline is active in the scope, the same manifest changes nothing and any other is refused |
| BaselineStore.FreeActivation | src/arbitrage_engine/database.py:1622-1638 | in a free scope a checked baseline is refused iff its manifest is on record under another account scope |
| BaselineReadBack.ActivationStores | src/arbitrage_engine/database.py:1639-1675 | a first activation appends one row of the baseline's fields and one item per position and reference, quantities as the column stores them; a re-activation touches no item |
| BaselineStore.RevocationOutcome | src/arbitrage_engine/database.py:1686-1706 | an active row is stamped with time and trimmed operator iff an operator is named and the lower-cased manifest of 64 characters is its own; else nothing changes |
| BaselineStore.NothingToRevoke | src/arbitrage_engine/database.py:1686-1700 | without an active baseline a well-formed revocation finds nothing and any other is refused |
| BaselineStore.InvalidItemIff | src/arbitrage_engine/database.py:1996-2010 | reading back fails on the first look iff an item is neither a position with a quantity nor a reference without |
| BaselineStore.IntactIs | src/arbitrage_engine/database.py:1990-2029 | what reads back intact has the row's own columns and, one for one, each item's key with its quantity or as a reference |
| BaselineStore.IntactIsSorted | src/arbitrage_engine/database.py:2013-2029 | what reads back intact is in code-point order of tokens and of references |
| BaselineReadBack.ReadsBackIff | src/arbitrage_engine/database.py:1990-2029 | for any column: a stored row reads back intact, sorted, under a lower-case manifest with quantities the column keeps, and only then if its payload does not collide with that of what the column makes of it |
| BaselineReadBack.ActivatedReadsBack | src/arbitrage_engine/database.py:1594-1675 | the same for what a first activation has just stored |
| BaselineReadBack.EveryBaselineReadsBack | src/arbitrage_engine/database.py:1990-2029 | over every run without such collisions: each stored baseline goes back to one activation and reads back intact iff that had a lower-case manifest and quantities the column keeps |
| BaselineReadBack.CapturedPassesChecks | src/arbitrage_engine/cli.py:1638-1652 | a baseline built from a captured payload always passes activation's runtime, contents and digest checks |
| BaselineReadBack.CapturedRoundTrip | src/arbitrage_engine/cli.py:1635-1652 | a new manifest: activating in a free scope and reading back gives the same sorted positions and fill references, intact, if the column keeps the quantities, and only then if the two payloads do not collide |
| BaselineReadBack.RecapturedRoundTrip | src/arbitrage_engine/database.py:1622-1638 | a manifest already on record, its payload not colliding with the captured one: activating it again succeeds iff the row is of the same scope and account, and reads back with the captured payload, the new capture time and operator |
| BaselineReadBack.CapturedKeptIff | src/arbitrage_engine/database.py:61-61 | with a column of 18 places a captured baseline is kept iff no quantity needs a nineteenth |
| BaselineReadBack.NineteenPlacesNeverReadBack | src/arbitrage_engine/database.py:1657-1665 | a quantity of nineteen places activates and, short of a collision, never reads back |
| BaselineReadBack.SampleNeverReadsBack | src/arbitrage_engine/database.py:1657-1665 | such a baseline, with a digest and tables that meet every premise |
| DecimalColumn.KeptIff | src/arbitrage_engine/database.py:61-61 | rounding to 18 places keeps the text of a value of at most 28 digits iff it needs at most 18 places |
| ReconciliationGate.GateOpenIff | src/arbitrage_engine/database.py:1324-1459 | nothing is reported iff every venue in scope is clear; what that takes of the rows is VenueClearInColumns |
| ReconciliationGate.VenueClearInColumns | src/arbitrage_engine/database.py:1324-1459 | a venue is clear iff its active row reads back, its last run succeeded without drift, its last full run is evidence, and a named venue has a full run |
| ReconciliationGate.EvidenceIff | src/arbitrage_engine/database.py:1411-1445 | a full run is evidence iff it succeeded without drift, is at most 300 seconds old, and carries no manifest where no baseline is active, or its manifest and account with a completion no earlier than the capture |
| ReconciliationGate.ReportedIff | src/arbitrage_engine/database.py:1331-1334 | the messages are the faults of the venues in scope behind the venue's name; without a scope every venue is in it |
| ReconciliationGate.EvidenceFaultIs | src/arbitrage_engine/database.py:1411-1445 | a latest full run is blamed, in this order, for failing or drifting, being over 300 seconds old, carrying another manifest than the active baseline, preceding the capture or naming no account, and naming another account |
| ReconciliationGate.FaultIff | src/arbitrage_engine/database.py:1387-1459 | the faults of a venue are those of its latest run and latest full run, an active baseline that does not read back, and for a named venue a missing run or full run |
| ReconciliationGate.DirtyRunReported | src/arbitrage_engine/database.py:1387-1391 | a latest run in scope that failed or drifted is reported under its own error or the default text |
| ReconciliationGate.DirtyFullRunReported | src/arbitrage_engine/database.py:1412-1417 | so is a latest full run, under its own default text |
| ReconciliationGate.ActivationClosesGate | src/arbitrage_engine/database.py:1591-1675 | a successful activation captured after all recorded runs keeps the gate closed in every later state until a revocation or a full run that carries the manifest, re-activations included |
| ReconciliationGate.ActivatedIsActive | src/arbitrage_engine/database.py:1639-1675 | after an activation the venue's active row has exactly the baseline's fields and no revocation |
| ReconciliationGate.UndemandedClearIff | src/arbitrage_engine/database.py:1446-1458 | where no evidence is demanded, a venue is clear after activation iff its baseline is intact and its latest run clean |
| ReconciliationGate.UnscopedActivationLeavesOpen | src/arbitrage_engine/database.py:1331-1334 | an unscoped gate over no runs stays open when an intact baseline is activated |
| ReconciliationGate.RevocationFreesScope | src/arbitrage_engine/database.py:1677-1706 | a revocation needs the active manifest, stamps that row, leaves its venue without an active baseline and every other venue's as it was |
| ReconciliationGate.ActivateRevokeActivate | src/arbitrage_engine/database.py:1627-1638 | a baseline just activated can be revoked under its own manifest iff that is lower-case, and activating it again restores exactly the tables from before |
| ReconciliationGate.MixedCaseActivates | src/arbitrage_engine/database.py:1601-1603 | what passes activation's checks also activates under any other casing of its manifest |
| ReconciliationGate.MixedCaseManifestLocksVenue | src/arbitrage_engine/database.py:1602-1620 | an active baseline whose manifest is not lower-case closes the gate for good: it neither reads back nor can be revoked or replaced |
| ProductionRepository.ExternalBaselineFromRows | src/arbitrage_engine/database.py:1990-2029 | the item loop and checks return exactly the reference read-back |
| ProductionRepository.Repository.ActivateExternalAccountBaseline | src/arbitrage_engine/database.py:1591-1675 | leaves the tables and answers as the reference activation |
| ProductionRepository.Repository.RevokeExternalAccountBaseline | src/arbitrage_engine/database.py:1677-1706 | leaves the tables and answers as the reference revocation |
| ProductionRepository.Repository.RecordReconciliation | src/arbitrage_engine/database.py:1305-1322 | appends the run under this runtime, nothing else |
| ProductionRepository.Repository.ActiveExternalAccountBaseline | src/arbitrage_engine/database.py:1568-1589 | reads back the active row of the venue, or nothing |
| ProductionRepository.Repository.CheckEvidence | src/arbitrage_engine/database.py:1403-1445 | one latest full run against its venue's baseline: the fault that EvidenceFaultIs names, from the loop's dictionary and set |
| ProductionRepository.Repository.LatestReconciliationFailures | src/arbitrage_engine/database.py:1324-1459 | returns exactly the messages to report, whatever order the queries deliver rows in, and none iff the gate is open; a last run or last full run that failed or drifted is among them under its error or default text |
| DecimalValue.SubtractError | src/arbitrage_engine/cli.py:1531-1531 | a difference below 10^20 is off by at most half of 10^-8 after rounding to 28 digits, whatever its digits |
| DecimalValue.SubtractAboveIff | src/arbitrage_engine/cli.py:1531-1537 | the rounded difference is over the tolerance iff the exact one exceeds it by more than half a unit of the 28th digit |
| DecimalValue.SubtractPrints | src/arbitrage_engine/external_baseline.py:84-87 | a rounded difference is printed without loss |
| BaselineCapture.QueriesRecognise | src/arbitrage_engine/cli.py:1550-1574 | the two queries recognise a fill iff one of its identifiers, free of surrounding space, is on record |
| BaselineCapture.CollectResiduals | src/arbitrage_engine/cli.py:1521-1543 | the token loop lists exactly the residuals over tolerance and the short ones, or names an offending token |
| BaselineCapture.CollectUntracked | src/arbitrage_engine/cli.py:1568-1578 | the fill loop collects exactly the fill identifiers of unknown fills, or their venue orders where there is none, trimmed, or names a fill that has neither |
| BaselineCapture.CaptureExternalAccountBaseline | src/arbitrage_engine/cli.py:1503-1587 | a capture succeeds iff the account is capturable; its payload lists for each unknown fill its trimmed fill identifier, or without one its venue order, and no other reference; each refusal names a real cause |
| BaselineCapture.CapturableIff | src/arbitrage_engine/cli.py:1503-1587 | a capture succeeds iff identity, venue and runtime are named, no order is open, no token is expected or left negative, tokens held in excess are outside the order history and distinct keys of 1 to 256 characters, and so long is every unknown fill's reference |
| BaselineCapture.RecognisedIff | src/arbitrage_engine/cli.py:1569-1574 | a fill is known iff its venue order or its client order is on record exactly as the venue reports it |
| BaselineCapture.ResidualIs | src/arbitrage_engine/cli.py:1521-1537 | a residual is actual less expected, zero where unlisted; over and short mean beyond 0.00000001, and so does a negative expectation |
| BaselineCapture.FillsListed | src/arbitrage_engine/cli.py:1568-1578 | a reference is listed iff it is the trimmed fill identifier of an unknown fill, or its venue order where it has none |
| BaselineCapture.HoldingsListed | src/arbitrage_engine/cli.py:1521-1543 | the payload lists exactly the tokens whose residual is over the tolerance, under the trimmed name and with the residual's value |
| BaselineCapture.CaptureConservesIff | src/arbitrage_engine/cli.py:1519-1587 | after a capture actual less expected less baselined is within tolerance for every token iff each token held is conservable: an excess above the threshold has a token without surrounding space and survives rounding, any other is within tolerance |
| BaselineCapture.ConservableIff | src/arbitrage_engine/cli.py:1531-1543 | below 10^20, of however many digits: iff the token is trimmed, or the excess is not in the sliver that rounds down to the tolerance; what is listed is off by at most half the tolerance |
| BaselineCapture.ListedIsOver | src/arbitrage_engine/cli.py:1537-1543 | every listed position is over the tolerance and its token outside the bot's order history |
| BaselineCapture.SpacedTokenIsLost | src/arbitrage_engine/cli.py:1543-1543 | one unit of a token named with a trailing space is not accounted for |
| BaselineCapture.LargeHoldingIsLost | src/arbitrage_engine/cli.py:1531-1531 | 10^20 and three units of 10^-8 are baselined as 10^20 |
| BaselineCapture.MarginalHoldingIsLost | src/arbitrage_engine/cli.py:1537-1537 | a tenth of a unit of the 28th digit above the tolerance is not baselined |
| MarketCandidates.NoChangeIff | src/arbitrage_engine/database.py:1123-1242 | an upsert changes nothing iff the tables already say what the candidate writes |
| MarketCandidates.UpsertTwiceIsOnce | src/arbitrage_engine/database.py:1123-1242 | upserting a candidate twice is upserting it once, whenever the second time comes |
| MarketCandidates.CanonicalRowIs | src/arbitrage_engine/database.py:1125-1139 | the first candidate of a canonical market fixes its row, with empty and absent texts as "unknown"; later ones do not touch it |
| MarketCandidates.InstrumentRowIs | src/arbitrage_engine/database.py:1140-1178 | each leg's instrument takes the candidate's columns and the leg's tokens, keeps a token the leg leaves empty, and changes its time iff a column changes |
| MarketCandidates.OtherInstruments | src/arbitrage_engine/database.py:1140-1178 | no other instrument changes |
| MarketCandidates.PairsIff | src/arbitrage_engine/database.py:1179-1188 | the mappings written are those of each two legs that both have a market id, the earlier on the left |
| MarketCandidates.DiscoveredMappingIs | src/arbitrage_engine/database.py:1189-1206 | a first discovery is a candidate with the candidate's columns, verified by nobody |
| MarketCandidates.KnownMappingIs | src/arbitrage_engine/database.py:1207-1238 | a known mapping goes stale and loses its verification iff its fingerprint changes, or it was verified and another strategy than its own is named, unless it had none and exact_id is named; every column is stated |
| MarketCandidates.OtherMappings | src/arbitrage_engine/database.py:1179-1238 | no other mapping changes |
| MarketCandidates.UndisturbedIffCompatible | src/arbitrage_engine/database.py:1123-1242 | one candidate never disturbs another's rows, in any tables, iff they agree on what they write to shared rows |
| MappingLifecycle.StaysVerifiedIff | src/arbitrage_engine/database.py:1207-1233 | a verified mapping survives discovery iff the fingerprint is the same and the strategy absent, the same, or the exact one where there was none; else it is stale |
| MappingLifecycle.AlwaysSound | src/arbitrage_engine/database.py:1188-1252 | in every state reached by batches, operator actions, restarts and other processes' upserts a verification time is set iff the mapping is verified |
| MappingLifecycle.StatusRowIs | src/arbitrage_engine/database.py:1244-1252 | a status change stamps a verification with time and operator and clears both for any other status |
| MappingLifecycle.VerifiedHasHistory | src/arbitrage_engine/database.py:1188-1252 | every verified mapping was verified by an operator event whose time and operator it carries, and has been verified unchanged in every state since |
| MappingLifecycle.NormalAlikeWritesSame | src/arbitrage_engine/database.py:2148-2181 | with no empty optional text and venues named in the same order, candidates of one key and signature write the same and may stand for each other |
| MappingLifecycle.SignatureTells | src/arbitrage_engine/database.py:2148-2181 | two candidates share a key iff target and legs agree in whatever order, and a signature iff legs and all else agree, absent texts counting as empty |
| MappingLifecycle.PreparedPositions | src/arbitrage_engine/database.py:1079-1088 | a batch upserts in its own order exactly the candidates that the cache does not hold under their signature, and all of them to mark them seen |
| MappingLifecycle.RememberedLast | src/arbitrage_engine/database.py:1240-1242 | the cache holds for each key the signature of its last upserted candidate |
| MappingLifecycle.ReplacesIff | src/arbitrage_engine/database.py:2148-2181 | under one key and signature, tables that say what one candidate writes always say what the other writes iff sources and categories agree (given any venue), the pairs of the second are pairs of the first, and its strategy is absent or the same (given any pair) |
| MappingLifecycle.SkippingIsTransparent | src/arbitrage_engine/database.py:1078-1088 | for harmonious candidates every run of consistent batches that skips cached signatures leaves the tables of the run that upserts everything, through restarts and agreeable upserts by other processes |
| CandidateCache.TransparentIff | src/arbitrage_engine/database.py:1078-1088 | skipping is transparent over all runs of consistent batches iff candidates under different keys agree on shared rows and those of one key and signature may stand for each other |
| CandidateCache.AlwaysTransparentIff | src/arbitrage_engine/database.py:1078-1088 | over all runs whatever, iff candidates of one key under two signatures agree as well |
| CandidateCache.SkipIsHarmlessIff | src/arbitrage_engine/database.py:1082-1086 | skipping a candidate after another of its key and signature leaves the same tables iff that one may stand for it |
| CandidateCache.ReturnIsHarmlessIff | src/arbitrage_engine/database.py:1082-1086 | a candidate that returns after one of another key is rightly skipped iff the two agree on shared rows |
| CandidateCache.RevertIsHarmlessIff | src/arbitrage_engine/database.py:1082-1088 | a batch that lists a new signature and the cached one of a key leaves the same tables iff the two agree on shared rows |
| CandidateCache.ElsewhereIsHarmlessIff | src/arbitrage_engine/database.py:1082-1088 | a candidate that returns after another process upserted one is rightly skipped iff the two agree on shared rows |
| CandidateCache.EmptyCategoryIsSkipped | src/arbitrage_engine/database.py:2169-2181 | an absent and an empty category share a signature: the two runs' tables differ |
| CandidateCache.SwappedLegsAreSkipped | src/arbitrage_engine/database.py:2165-2181 | signatures sort venues, mapping rows do not: naming them the other way round, the two runs' tables differ |
| CandidateCache.ReversionIsSkipped | src/arbitrage_engine/database.py:1082-1088 | one key under two signatures in a batch, as preparation derives them from two cut-offs: the two runs' tables differ |
| MarketRepository.Repository.UpsertInstrument | src/arbitrage_engine/database.py:1140-1178 | one instrument row is written as the reference says |
| MarketRepository.Repository.UpsertMapping | src/arbitrage_engine/database.py:1189-1238 | one mapping row is written as the reference says |
| MarketRepository.Repository.UpsertMappings | src/arbitrage_engine/database.py:1179-1238 | the nested loops visit every pair of venues with ids, left before right |
| MarketRepository.Repository.UpsertMarketCandidates | src/arbitrage_engine/database.py:1078-1242 | one chunk leaves tables and cache as the reference batch |
| MarketRepository.Repository.SetMappingStatus | src/arbitrage_engine/database.py:1244-1252 | sets status, time and operator of a known mapping, reports an unknown one |
| MappingIndex.BuildIndex | src/arbitrage_engine/database.py:144-155 | the pair index answers every pair as the scan does, the fingerprint index with the first mapping |
| MappingIndex.MatchPairs | src/arbitrage_engine/database.py:159-184 | the routes added are exactly those of mappings joining two of the market's ids; metadata is offered pair by pair |
| MappingIndex.ApplyVerifiedMappingSnapshot | src/arbitrage_engine/database.py:138-214 | every market becomes exactly what the plain scan says, in input order |
| MappingIndex.RoutesJoined | src/arbitrage_engine/database.py:159-204 | the routes added are exactly those of mappings that have two of the market's ids, in either order, and a market with a route is verified |
| MappingIndex.NothingScannedIff | src/arbitrage_engine/database.py:153-165 | a pair of ids offers nothing iff no mapping has them as its two ids in either order |
| MappingIndex.PairOffers | src/arbitrage_engine/database.py:153-154 | a pair of ids offers what the last mapping has that joins them on the route of the first mapping that joins them |
| MappingIndex.FingerprintOffers | src/arbitrage_engine/database.py:152-152 | a fingerprint offers what its first mapping has |
| MappingIndex.OffersInOrder | src/arbitrage_engine/database.py:159-197 | what a market is offered: the joined pairs of its ids in order, then the first mapping with its fingerprint, or without one the first pair's |
| MappingIndex.TextsFilled | src/arbitrage_engine/database.py:166-197 | source, semantics and category each become, where missing, the first known text offered, and a missing cut-off that of the first offer |
| MappingIndex.MetadataReaches | src/arbitrage_engine/database.py:144-197 | where one mapping joins two of a market's ids and none joins a pair visited before, texts, cut-off and fingerprint that the market lacks become those of the mapping and its canonical row |
| MappingIndex.FingerprintFilled | src/arbitrage_engine/database.py:168-169 | a fingerprint that is there stays; a missing one is that of the first pair's offer, if a pair is matched |
| MappingIndex.JoiningOnlyAdds | src/arbitrage_engine/database.py:160-214 | existing routes, fingerprints, cut-offs and known texts are never overwritten |

## Left out

- Connectors, HTTP, WebSocket, web3 and Docker calls, database sessions and logging: foreign calls. Connector answers are arbitrary inputs and each repository transaction is one atomic step.
- The route blocks of `run_once` that build the planned list (`src/arbitrage_engine/engine.py:550-920`): flat conditions; the planned list is an input that carries the snapshot and generation it was built from.
- Ad-hoc calls of the selection with a list that is not the installed plan are covered by the per-cycle theorems; runs consist of cycles over the installed plan, as `run_once` makes them.
- Floating point: fractions, spreads and times are reals; rounding is not modelled. Time is read once per call and is an argument.
- The order of the sorted target tuples that are published: published targets are sets.
- SchedulerRuns.CacheTransparency: speaks of cycles over the installed plan; the cache is never consulted for any other list.
- CalibrationGate.EvaluateRoute: the blocker for too few evaluations does not spell out the minimum as the report's text does.
- BaselineReadBack.CapturedKeptIff: a quantity of more than 20 whole digits, which the database refuses, is stored like any other; elsewhere the column is an arbitrary function.
- BaselineReadBack.ReadsBackIff: that nothing else reads back holds short of a collision between the two payloads at hand, as does what follows from it.
- BaselineReadBack.RecapturedRoundTrip: assumes that the row on record reads back, which EveryBaselineReadsBack decides, and that its payload does not collide with the captured one.
- ExternalBaseline.CanonicalPayload: exponents outside the decimal context's limits are not modelled, and a quantity is either a finite decimal or not finite.
- SHA-256 and UTF-8: the digest of a payload is an arbitrary function with 64 lower-case hexadecimal digits; digests used as row identifiers are modelled by what they digest. Account identifiers reach the model already digested.
- Lower-casing is modelled for ASCII letters, all that digests and the word "unknown" need. Constant-time comparison is equality.
- ProductionRepository.Repository.LatestReconciliationFailures: the messages are stated as a set; their order and repetition are not, since the queries leave row order open.
- What other processes do to the candidate tables is upserts and status changes like this one's, not arbitrary writes.
- Column widths and time zones of stored rows; a stored time is a number.
- Splitting a large discovery call into chunks of 128: such a call is that many batches.
- MappingLifecycle.SkippingIsTransparent: states one direction; that its condition on the candidates is also necessary is CandidateCache.TransparentIff, and for arbitrary batches CandidateCache.AlwaysTransparentIff.
- SchedulerCollecting.BuiltWindowDeliversIff: for a held window that is restored, the condition stays one on that window, which is part of the state (CollectingEndsIff).
- Publication.PublishedIsSynced: a token published under a label that is none of the five venues has no client to be synced to.
- MarketCandidates.UndisturbedIffCompatible: canonical rows are written once and never updated, so they need no agreement.
- Parsing of metric lines and bucket labels, the latency horizon's computation, evidence reports, CLI previews, and the operator confirmation: inputs or easy members.
- Discovery back-off, quant, execution, position manager, risk control, chain costs, rebalancing, wallet and smoke scripts: outside this core.
