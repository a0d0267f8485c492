# Thermal control loop

A model of the control loop of the thermal manager, from a temperature report to what subscribers
are told, and proofs about it over whole runs. `dafny verify dfyconfig.toml` verifies everything.

- **Levels.** `Hysteresis.dfy` defines one step of a level machine with trigger and clear
  thresholds. `ClusterSpec.dfy` says what one report means for a cluster of sensors with its
  gates, `SensorCluster.dfy` is the cluster object with its eight search loops, and
  `ClusterTheorems.dfy` and `Chatter.dfy` are about reports and runs; `Gates.dfy` says what moves a
  cluster in terms of the configured numbers and the readings alone.
- **Rates.** `Slope.dfy` computes the slope, within its 32-bit range, and `LeastSquares.dfy` shows
  that it is the one of the least-squares line; `History.dfy` is the two sliding windows, `WarmUp.dfy`
  the rate gate on top of them.
- **Actions.** `ThermalAction.dfy` is an action with delayed values, timers and output on change;
  `ActionTheorems.dfy` is about its runs, and `DelayedValues.dfy` tells from the events of a run what
  it arbitrates over.
- **Policies.** `PolicySpec.dfy` and `ThermalPolicy.dfy` choose configurations and feed actions;
  `Feeding.dfy` turns a round into a run of each action, and `EndToEnd.dfy` follows hotter reports
  through to the limit of an action.
- **Subscribers.** `ActionObserver.dfy` and `TempObserver.dfy` distribute values and temperatures, and
  `Delivery.dfy` and `TempDelivery.dfy` tell from the events what each subscriber has been told;
  `Distribution.dfy` joins an action with the subscribers to its values.
- **Protector.** `ProtectorZone.dfy` is the second implementation of the level machine,
  `Schedule.dfy` the sampling schedule.
- **Configuration.** `SplitString.dfy` is the field splitter.

`Sorting.dfy`, `Options.dfy` and `Sets.dfy` hold what several of them share.

Objects whose methods update fields are classes, and each method is proved to do what a value-level
function or step relation says; the theorems are about those. Where a loop body touches one object
of many, it is a method of its own.

## What is assumed

- A cluster passes `CheckStandard` and its level lists are not empty; the parser refuses empty
  lists (`services/native/src/thermal_policy/thermal_srv_config_parser.cpp:268`, `:366`). With an
  empty list the top and the bottom branch of the search would index before the first entry.
- The items of a protector zone are numbered 1..n in order and there is at least one. The zone code
  relies on it and checks neither (`application/protector/src/policy/protector_thermal_zone_info.cpp:34-77`).
- "Sorted" means thresholds and clears are monotone along the table and no clear lies beyond its
  trigger. No code tests this, so it is a premise only where it is needed.
- A new delayed entry is not completed and has timer id 0. The struct is left uninitialised at
  `services/native/src/thermal_policy/thermal_policy.cpp:189`, so the code does not guarantee this.
- Timer ids handed out are positive and never reused, and a destroyed timer does not fire.
- Maps and sets the code walks in key order are lists in that order, or are walked smallest first;
  hash maps are walked in any order.
- `std::sort` is a stable sort here. `Sorting.AnySortAgreesExactly` says for which lists that makes no
  difference; distinct keys are enough.
- State conditions, file reads and timer reads are parameters of the step that asks for them.
- Rates are reals. Integers are unbounded, except in `Slope.dfy`, where the 32-bit range is the
  property.

## Model

| member | source | states |
|---|---|---|
| `Hysteresis.StepIsTheOnlySolution` | services/native/src/thermal_policy/thermal_config_sensor_cluster.cpp:231-277 | one step is the only level that fits the declarative description: the largest climb through entered levels if the next trigger is reached, else the largest level still held |
| `Hysteresis.StepIdempotent` | services/native/src/thermal_policy/thermal_config_sensor_cluster.cpp:231-277 | if whatever lets a level be entered lets it be kept, repeating the same signals moves nothing, sorted or not |
| `Hysteresis.PlainStepIsClamp` | services/native/src/thermal_policy/thermal_config_sensor_cluster.cpp:131-179 | with sorted thresholds and no gates a step is max(U, min(level, D)) for the numbers of triggers and clears reached |
| `Hysteresis.GatedStepIsDominated` | services/native/src/thermal_policy/thermal_config_sensor_cluster.cpp:231-277 | a gated machine at or below an ungated one stays at or below it on the same temperature |
| `SensorCluster.ThermalConfigSensorCluster.CheckStandard` | services/native/src/thermal_policy/thermal_config_sensor_cluster.cpp:29-65 | accepts exactly the configurations with equal level counts, levels numbered 1..n, aux lists empty or of that length, and as many temp-diff entries when that gate is on |
| `SensorCluster.ThermalConfigSensorCluster.UpdateThermalLevel` | services/native/src/thermal_policy/thermal_config_sensor_cluster.cpp:67-84 | the level becomes the specified cluster step, the decisive configuration is unchanged, and the level stays within 0..n |
| `SensorCluster.ThermalConfigSensorCluster.CheckState` | services/native/src/thermal_policy/thermal_config_sensor_cluster.cpp:86-106 | true exactly if every configured state condition holds |
| `SensorCluster.ThermalConfigSensorCluster.CalculateSensorLevel` | services/native/src/thermal_policy/thermal_config_sensor_cluster.cpp:108-129 | one level per reported sensor, all stepped from the same shared level, in sensor order |
| `SensorCluster.ThermalConfigSensorCluster.AscJudgment` | services/native/src/thermal_policy/thermal_config_sensor_cluster.cpp:231-253 | all branches together compute the hysteresis step of an ascending table |
| `SensorCluster.ThermalConfigSensorCluster.DescJudgment` | services/native/src/thermal_policy/thermal_config_sensor_cluster.cpp:255-277 | all branches together compute the hysteresis step of a descending table |
| `SensorCluster.ThermalConfigSensorCluster.AscendLevelToThreshold` | services/native/src/thermal_policy/thermal_config_sensor_cluster.cpp:131-141 | reaches the highest level enterable without a break |
| `SensorCluster.ThermalConfigSensorCluster.DescendLevelToThresholdClr` | services/native/src/thermal_policy/thermal_config_sensor_cluster.cpp:143-153 | falls to the highest level still kept |
| `SensorCluster.ThermalConfigSensorCluster.DescendLevelToThreshold` | services/native/src/thermal_policy/thermal_config_sensor_cluster.cpp:155-166 | the same fall, from the top level |
| `SensorCluster.ThermalConfigSensorCluster.AscendLevelToThresholdClr` | services/native/src/thermal_policy/thermal_config_sensor_cluster.cpp:168-179 | the same climb, from level 0 |
| `SensorCluster.ThermalConfigSensorCluster.LevelUpwardsSearch` | services/native/src/thermal_policy/thermal_config_sensor_cluster.cpp:181-191 | the climb of a descending table |
| `SensorCluster.ThermalConfigSensorCluster.LevelDownwardsSearch` | services/native/src/thermal_policy/thermal_config_sensor_cluster.cpp:193-203 | the fall of a descending table |
| `SensorCluster.ThermalConfigSensorCluster.LevelDownwardsSearchWithThreshold` | services/native/src/thermal_policy/thermal_config_sensor_cluster.cpp:205-216 | the fall of a descending table from the top |
| `SensorCluster.ThermalConfigSensorCluster.LevelUpwardsSearchWithThreshold` | services/native/src/thermal_policy/thermal_config_sensor_cluster.cpp:218-229 | the climb of a descending table from level 0 |
| `SensorCluster.ThermalConfigSensorCluster.CheckExtraCondition` | services/native/src/thermal_policy/thermal_config_sensor_cluster.cpp:279-301 | true exactly if every enabled gate holds at the level, for entering or for keeping |
| `SensorCluster.ThermalConfigSensorCluster.IsTempRateTrigger` | services/native/src/thermal_policy/thermal_config_sensor_cluster.cpp:303-322 | entering needs a critical trend, keeping one that is not ideal |
| `SensorCluster.ThermalConfigSensorCluster.IsAuxSensorTrigger` | services/native/src/thermal_policy/thermal_config_sensor_cluster.cpp:324-343 | every aux sensor reports within its range for the level |
| `SensorCluster.ThermalConfigSensorCluster.IsTempDiffTrigger` | services/native/src/thermal_policy/thermal_config_sensor_cluster.cpp:345-382 | the entry at the level of the sorted list holds; sorting in place does not change any answer |
| `SensorCluster.ThermalConfigSensorCluster.GetRateTrend` | services/native/src/thermal_policy/thermal_config_sensor_cluster.cpp:384-421 | the three flags of the loop amount to: all rates at least the target, all below it, or neither |
| `ClusterSpec.ClusterRun` | services/native/src/thermal_policy/thermal_config_sensor_cluster.cpp:67-84 | over every run of reports the level stays within 0..n |
| `ClusterTheorems.ClusterStepIsClamp` | services/native/src/thermal_policy/thermal_config_sensor_cluster.cpp:67-84 | one report moves a sorted ungated cluster to max(U, min(level, D)) for the maxima over all reported sensors: many sensors are one virtual sensor |
| `ClusterTheorems.ClusterStepMonotone` | services/native/src/thermal_policy/thermal_config_sensor_cluster.cpp:108-179 | the step is monotone in the temperatures and in the level, for both directions |
| `ClusterTheorems.UngatedClusterIdempotent` | services/native/src/thermal_policy/thermal_config_sensor_cluster.cpp:67-84 | repeating a report leaves a sorted ungated cluster where it is, however many sensors |
| `ClusterTheorems.GatedRunNeverAbove` | services/native/src/thermal_policy/thermal_config_sensor_cluster.cpp:279-301 | over every run from a common level, a gated cluster is never above the same sorted cluster with the gates off |
| `ClusterTheorems.EntryImpliesKeep` | services/native/src/thermal_policy/thermal_config_sensor_cluster.cpp:279-322 | the entry gate implies the keep gate: a critical trend is never ideal |
| `ClusterTheorems.SensorStepIdempotent` | services/native/src/thermal_policy/thermal_config_sensor_cluster.cpp:231-253 | with all gates on and clear no later than trigger, a sensor repeats its level on the same report |
| `ClusterTheorems.SingleSensorClusterIdempotent` | services/native/src/thermal_policy/thermal_config_sensor_cluster.cpp:67-84 | so a cluster with one sensor repeats its level, whatever its gates |
| `ClusterTheorems.RepeatsExactly` | services/native/src/thermal_policy/thermal_config_sensor_cluster.cpp:67-84 | with any gates and any number of sensors, a repeated report moves the cluster on exactly if some reported sensor reaches the trigger and passes the entry gate of the level after the one it is now at |
| `ClusterTheorems.RepeatingSettles` | services/native/src/thermal_policy/thermal_config_sensor_cluster.cpp:67-84 | a report that keeps coming settles any cluster after at most one application more than it has levels |
| `ClusterTheorems.GatedClusterNotIdempotent` | services/native/src/thermal_policy/thermal_config_sensor_cluster.cpp:108-129 | it does happen: a concrete cluster of two sensors and a report that moves the level twice |
| `ClusterTheorems.QueryReadsItsLevel` | services/native/src/thermal_policy/thermal_config_sensor_cluster.cpp:345-382 | with levels 1..n in any configured order, a query for level k reads the entry configured for k, and in bounds |
| `ClusterTheorems.QueriesReadTheirLevelsExactly` | services/native/src/thermal_policy/thermal_config_sensor_cluster.cpp:345-382 | every query reads the entry of its own level exactly if the configured levels are distinct and within 1..n, which the configuration check does not look at |
| `ClusterTheorems.MirrorAutomaton` | services/native/src/thermal_policy/thermal_config_sensor_cluster.cpp:181-277 | a descending table behaves as the ascending one with negated thresholds on the negated temperature, gates included |
| `ClusterTheorems.MirrorRun` | services/native/src/thermal_policy/thermal_config_sensor_cluster.cpp:181-277 | the same for whole clusters over whole runs, with all gates: aux ranges are negated too, and temp-diff sensors change places |
| `Gates.SensorEntersExactly` | services/native/src/thermal_policy/thermal_config_sensor_cluster.cpp:131-141 | a sensor takes a level above the current one exactly if it reaches the trigger, and passes every enabled gate, of each level on the way: every aux sensor reports within its range, the difference is in range, and a full window of rates never below the target nor below 0 |
| `Gates.SensorLeavesExactly` | services/native/src/thermal_policy/thermal_config_sensor_cluster.cpp:143-166 | it gives a level up exactly if it does not reach the next trigger and, for that level and those above it up to the current one, the clear is missed, an aux reading is missing or out of range, the difference is, or the rates are unknown or all below both 0 and the target in a full window |
| `Gates.ClusterTakesTheHighest` | services/native/src/thermal_policy/thermal_config_sensor_cluster.cpp:67-84 | 0 if a state condition fails, the level as it was if no sensor of the cluster reports, and else the highest level any of them takes |
| `Gates.EnteredExactly` | services/native/src/thermal_policy/thermal_config_sensor_cluster.cpp:279-301 | so a cluster rises to a level exactly if its conditions hold and some reporting sensor enters all levels up to it |
| `Gates.LeftExactly` | services/native/src/thermal_policy/thermal_config_sensor_cluster.cpp:279-301 | and falls below one exactly if a condition fails, or there are readings and every reporting sensor gives it up |
| `Gates.OthersLeaveNoTrace` | services/native/src/thermal_policy/thermal_config_sensor_cluster.cpp:78-80 | over any run, reports that name no sensor of the cluster while its conditions hold can be left out |
| `Gates.FailedConditionForgets` | services/native/src/thermal_policy/thermal_config_sensor_cluster.cpp:69-75 | over any run the level depends on nothing before the last report that failed a condition |
| `Gates.EnteredThroughItsGates` | services/native/src/thermal_policy/thermal_config_sensor_cluster.cpp:279-301 | over any run, a level that was not there from the start was entered at a report that passed its trigger and all its gates, and has not been left since |
| `Chatter.CrossingTemperature` | services/native/src/thermal_policy/thermal_config_sensor_cluster.cpp:131-179 | with any number of sensors a level is entered only if some sensor is at or beyond its trigger, and left only if every sensor is short of its clear |
| `Chatter.OppositeCrossingsFarApart` | services/native/src/thermal_policy/thermal_config_sensor_cluster.cpp:231-253 | over any run of an ungated cluster, between two crossings of a level in opposite directions some sensor has moved from beyond its trigger to short of its clear or back, by more than its gap |
| `Chatter.ConsecutiveCrossingsFarApart` | services/native/src/thermal_policy/thermal_config_sensor_cluster.cpp:231-253 | two crossings with none between them are in opposite directions, and so some sensor has crossed its gap |
| `Chatter.NoChatter` | services/native/src/thermal_policy/thermal_config_sensor_cluster.cpp:67-84 | over any run of an ungated cluster all of whose sensors report, (crossings of a level - 1) times the narrowest gap of any sensor at it is at most the total variation of all temperatures together; no sorting needed |
| `Slope.GetThermalRiseRate` | services/native/src/thermal_observer/thermal_service_subscriber.cpp:108-139 | the accumulating loop computes the least-squares ratio, and 0 for short windows or a zero denominator |
| `Slope.DenominatorClosed` | services/native/src/thermal_observer/thermal_service_subscriber.cpp:117-133 | twelve times the denominator is 25 n n (n n - 1), so it is positive from two samples on |
| `Slope.SlopeExactOnLines` | services/native/src/thermal_observer/thermal_service_subscriber.cpp:108-139 | on linear data the rate is exactly the slope, 0 on constant data |
| `Slope.RisingWindowHasNonNegativeRate` | services/native/src/thermal_observer/thermal_service_subscriber.cpp:108-139 | if the temperature never fell across the newest-first window, the rate is not negative |
| `Slope.ShortWindowHasNoRate` | services/native/src/thermal_observer/thermal_service_subscriber.cpp:110-112 | a window that is not full has rate 0, and so has a single sample |
| `LeastSquares.NormalEquations` | services/native/src/thermal_observer/thermal_service_subscriber.cpp:117-139 | the line of the rate leaves residuals orthogonal to the constant and to the times |
| `LeastSquares.RiseRateIsLeastSquares` | services/native/src/thermal_observer/thermal_service_subscriber.cpp:108-139 | for a full window the rate is sixty times a slope exactly if some line with that slope has the least sum of squared errors of all lines |
| `Slope.WindowOfTwentyFits` | services/native/src/thermal_observer/thermal_service_subscriber.cpp:113-136 | with at most 20 samples of magnitude at most 100000 every 32-bit intermediate value is in range |
| `Slope.LongWindowOverflows` | services/native/src/thermal_observer/thermal_service_subscriber.cpp:113-136 | at every length from 21 on, the constant window of 100000 leaves the 32-bit range |
| `Slope.SafeUpToTwentyExactly` | services/native/src/thermal_observer/thermal_service_subscriber.cpp:113-136 | all windows of a length with magnitudes at most 100000 stay in range exactly if the length is at most 20 |
| `History.ThermalServiceSubscriber.SetHistoryTypeTempMap` | services/native/src/thermal_observer/thermal_service_subscriber.cpp:64-106 | one report extends every reported temperature window and then every rate window |
| `History.WindowsAreExact` | services/native/src/thermal_observer/thermal_service_subscriber.cpp:64-106 | after any run a sensor's windows are exactly its newest temperatures, newest first, and its last rates, oldest first |
| `WarmUp.OnTemperatureChanged` | services/native/src/thermal_observer/thermal_service_subscriber.cpp:41-62 | the level is decided on the windows before the report is recorded; an empty report changes nothing |
| `WarmUp.UpdateThermalState` | services/native/src/thermal_service.cpp:600-615 | an immediate state update decides again on the last report with the windows as they are |
| `WarmUp.RateWarmUp` | services/native/src/thermal_observer/thermal_service_subscriber.cpp:41-112 | over any run of reports and decisions between them, a cluster with positive level-1 rise rates is at level 0 until historyCount + rateCount - 1 reports are recorded, and always if the history is too short |
| `WarmUp.EmptyReportsLeaveNoTrace` | services/native/src/thermal_observer/thermal_service_subscriber.cpp:41-62 | over any run, leaving out the empty reports changes neither level nor windows nor the report decided on again |
| `WarmUp.WarmUpIsExact` | services/native/src/thermal_policy/thermal_config_sensor_cluster.cpp:303-322 | with exactly that many reports recorded a steadily warming sensor lifts its cluster at the next decision, on the next report or again on the last one |
| `ThermalAction.ActionCpuBig.AddActionDelayTime` | services/native/include/thermal_action/ithermal_action.h:55-61 | a new delayed entry is added once, and its id counts as proposed |
| `ThermalAction.ActionCpuBig.AddActionValue` | services/native/src/thermal_action/action/action_soc/action_cpu_big.cpp:50-64 | an immediate value is appended, a delayed one stored in its entry, an empty one ignored |
| `ThermalAction.ActionCpuBig.Execute` | services/native/include/thermal_action/ithermal_action.h:63-101 | the round as one event: entries nobody proposed go with their timers, new ones get fresh timers, and the value is arbitrated |
| `ThermalAction.ActionCpuBig.OnTrigger` | services/native/include/thermal_action/ithermal_action.h:86-92 | a firing timer completes its entry, arbitrates, and is gone |
| `ThermalAction.ActionCpuBig.ExecuteInner` | services/native/src/thermal_action/action/action_soc/action_cpu_big.cpp:66-90 | immediate and completed values are arbitrated; a changed value is sent to the device and handed to the observer |
| `ThermalAction.ActionCpuBig.GetActionValue` | services/native/src/thermal_action/action/action_soc/action_cpu_big.cpp:97-108 | minimum if strict, else maximum, of the list; the fallback if it is empty |
| `ThermalAction.ActionCpuBig.ResetActionValue` | services/native/src/thermal_action/action/action_soc/action_cpu_big.cpp:92-95 | forgets what was sent; the device has lost its value |
| `ActionTheorems.RoundSettlesTimers` | services/native/include/thermal_action/ithermal_action.h:63-101 | after every round of every run the delayed entries are exactly the proposed ids, and the live timers exactly those of the entries not completed, one each |
| `ActionTheorems.RunKeepsTimers` | services/native/include/thermal_action/ithermal_action.h:63-101 | every event keeps the timer invariant: distinct ids, each below the next unused one, each live timer with its entry |
| `ActionTheorems.EntriesStayProposed` | services/native/include/thermal_action/ithermal_action.h:63-101 | an entry with a timer, completed or not, has been proposed in every round since that timer was started |
| `ActionTheorems.EdgeTriggeredOutput` | services/native/src/thermal_action/action/action_soc/action_cpu_big.cpp:66-108 | over any run the device holds what it would hold if every execution sent its value, unless only the reset value has been arbitrated since it lost its value; then it holds nothing |
| `ActionTheorems.ResetValueIsNotSent` | services/native/src/thermal_action/action/action_soc/action_cpu_big.cpp:66-95 | the two do differ: a run in which the reset value is arbitrated and the device holds nothing |
| `ActionTheorems.NextExecutionRepairs` | services/native/src/thermal_action/action/action_soc/action_cpu_big.cpp:66-108 | a lost value is repaired by the next execution unless it arbitrates the reset value |
| `ActionTheorems.FiringAfterRound` | services/native/include/thermal_action/ithermal_action.h:86-92 | a timer firing after a round arbitrates over completed delayed values alone |
| `ActionTheorems.RoundArbitratesExactly` | services/native/src/thermal_action/action/action_soc/action_cpu_big.cpp:66-90 | a round arbitrates over the immediate values added since the last execution; these are all that were added since the last round exactly if no timer fired in between after the first of them |
| `ActionTheorems.TimerCutsIn` | services/native/include/thermal_action/ithermal_action.h:86-92 | it can happen: a run in which a timer fires between a value and its round, and the round no longer has the value |
| `DelayedValues.EntriesFollowEvents` | services/native/include/thermal_action/ithermal_action.h:55-101 | over any run an entry exists exactly if its id was proposed and then again before every round since, and holds the value added last, the delay of its first proposal, and whether its timer has fired |
| `DelayedValues.ExecutionArbitratesExactly` | services/native/src/thermal_action/action/action_soc/action_cpu_big.cpp:66-108 | over any run an execution ends with the smallest (strict) or greatest of the immediate values added since the last one and the values of entries whose timer has fired, and with the fallback if there are none |
| `ThermalPolicyEngine.ThermalPolicy.SortLevel` | services/native/src/thermal_policy/thermal_policy.cpp:80-85 | every policy is sorted by level |
| `ThermalPolicyEngine.ThermalPolicy.LevelDecision` | services/native/src/thermal_policy/thermal_policy.cpp:94-102 | every cluster takes its step and the level map records it |
| `ThermalPolicyEngine.ThermalPolicy.PolicyDecision` | services/native/src/thermal_policy/thermal_policy.cpp:129-159 | every action executes one round on what the policies have fed it |
| `ThermalPolicyEngine.ThermalPolicy.FeedActions` | services/native/src/thermal_policy/thermal_policy.cpp:131-148 | every action receives what each cluster policy feeds it, in policy order |
| `ThermalPolicyEngine.ThermalPolicy.DecidePolicy` | services/native/src/thermal_policy/thermal_policy.cpp:131-148 | the entries of the last configuration whose level is reached, or nothing |
| `ThermalPolicyEngine.ThermalPolicy.FindConfig` | services/native/src/thermal_policy/thermal_policy.cpp:142-147 | the backward search finds the last configuration whose level is reached |
| `ThermalPolicyEngine.ThermalPolicy.ActionDecision` | services/native/src/thermal_policy/thermal_policy.cpp:161-199 | each action receives its last entry whose conditions hold |
| `ThermalPolicyEngine.ThermalPolicy.LastEntries` | services/native/src/thermal_policy/thermal_policy.cpp:163-170 | the map of entries holds, for each action, the last one whose conditions hold |
| `ThermalPolicyEngine.ThermalPolicy.StateMachineDecision` | services/native/src/thermal_policy/thermal_policy.cpp:217-235 | true exactly if every condition holds |
| `ThermalPolicyEngine.ThermalPolicy.ActionExecution` | services/native/src/thermal_policy/thermal_policy.cpp:237-254 | every action executes exactly one round |
| `ThermalPolicyEngine.ThermalPolicy.ExecutePolicy` | services/native/src/thermal_policy/thermal_policy.cpp:50-62 | a report takes every cluster and every action through exactly one round |
| `PolicySpec.ChosenIsHighest` | services/native/src/thermal_policy/thermal_policy.cpp:80-85 | after sorting, the chosen configuration has the highest configured level not above the cluster's, and one is chosen whenever there is such a level |
| `PolicySpec.WinnerExists` | services/native/src/thermal_policy/thermal_policy.cpp:161-170 | an action has a winner exactly if some entry for it applies |
| `PolicySpec.LastApplicableWins` | services/native/src/thermal_policy/thermal_policy.cpp:161-170 | the winner is an entry for the action that applies, and no entry after it does |
| `PolicySpec.DecidedExactly` | services/native/src/thermal_policy/thermal_policy.cpp:94-102 | each cluster that has been decided is at the level its own step gives, and so is its entry in the level map |
| `PolicySpec.LevelMapFollowsClusters` | services/native/src/thermal_policy/thermal_policy.cpp:94-102 | over any run of reports the level map holds for every cluster the level it would have on its own |
| `Feeding.HandedOverIsSaid` | services/native/src/thermal_policy/thermal_policy.cpp:131-170 | the entry handed over is, in the last configuration whose level is reached, the last one for the action whose conditions hold, and one is handed over exactly if there is one |
| `Feeding.SortedPolicySays` | services/native/src/thermal_policy/thermal_policy.cpp:80-85 | with different levels the order of the configurations does not matter: once sorted, a policy says what the configuration of the highest level reached says |
| `Feeding.ImmediateEntryCounts` | services/native/src/thermal_policy/thermal_policy.cpp:178-198 | an entry without a delay adds its value to those of the round, and one with a malformed delay adds nothing |
| `Feeding.DelayedEntryWaits` | services/native/src/thermal_policy/thermal_policy.cpp:189-195 | a delayed entry adds nothing to the round: its value waits under its id, which is proposed and keeps its delay, timer and progress if it is known already |
| `Feeding.SilentPolicyFeedsNothing` | services/native/src/thermal_policy/thermal_policy.cpp:129-148 | a policy that says nothing about an action leaves it as it is |
| `Feeding.FeedingIsARun` | services/native/src/thermal_policy/thermal_policy.cpp:161-199 | feeding an action is a run of it: what the policies say, in policy order |
| `Feeding.RoundIsARun` | services/native/src/thermal_policy/thermal_policy.cpp:50-62 | a round of the engine is, for each action, that run at the new levels, followed by an execution |
| `Feeding.RoundDecidesExactly` | services/native/src/thermal_policy/thermal_policy.cpp:50-62 | after any history the limit of a round is the smallest or greatest of what the policies say at the new levels without a delay, what was added since the last execution, and the fired entries still proposed |
| `EndToEnd.HotterNeverLoosens` | services/native/src/thermal_policy/thermal_policy.cpp:80-148 | over whole runs of reports, timer firings and device restarts from the same start, pointwise hotter reports never leave a strict action with a looser limit, if each policy ignores the action or always names it with values that do not grow with the level |
| `EndToEnd.DecidedBelow` | services/native/src/thermal_policy/thermal_policy.cpp:94-102 | hotter reports keep every cluster and every recorded level at least as high |
| `ActionObserver.ThermalObserver.SetDecisionValue` | services/native/src/thermal_observer/thermal_observer.cpp:222-239 | the value enters the pending and the full map |
| `ActionObserver.ThermalObserver.SubscribeThermalActionCallback` | services/native/src/thermal_observer/thermal_observer.cpp:124-143 | a new listener starts from the full map, a known one is ignored |
| `ActionObserver.ThermalObserver.UnSubscribeThermalActionCallback` | services/native/src/thermal_observer/thermal_observer.cpp:145-161 | the listener and its subscription are gone |
| `ActionObserver.ThermalObserver.FindSubscribeActionValue` | services/native/src/thermal_observer/thermal_observer.cpp:174-199 | a flush without interruption is drain, then delivery of what was drained, whatever else is in flight; nothing happens when nothing is pending |
| `ActionObserver.ThermalObserver.TakePending` | services/native/src/thermal_observer/thermal_observer.cpp:176-186 | the pending map is taken and cleared in one step |
| `ActionObserver.ThermalObserver.DeliverCache` | services/native/src/thermal_observer/thermal_observer.cpp:188-198 | every listener is told its selection and those of all listeners before it |
| `ActionObserver.DecisionActionValue` | services/native/src/thermal_observer/thermal_observer.cpp:207-220 | what the map holds for the listed actions is added, what is there already stays |
| `ActionObserver.SnapshotPlusDeltas` | services/native/src/thermal_observer/thermal_observer.cpp:124-199 | over any interleaving, with any number of flushes in flight: in every state each view, with what is in flight and then what is pending merged over it, is the full map on the subscribed actions, and would be for a later subscriber, if and only if no delivery of the run overtakes anything |
| `ActionObserver.InOrderOvertakesNothing` | services/native/src/thermal_observer/thermal_observer.cpp:174-199 | deliveries in the order of draining, and so one flush at a time, overtake nothing |
| `ActionObserver.ViewsAreCurrent` | services/native/src/thermal_observer/thermal_observer.cpp:174-239 | unless something was overtaken, a view that differs is covered by the pending map or a cache in flight; with neither, every view is current |
| `ActionObserver.DeliveryIsConsistentExactly` | services/native/src/thermal_observer/thermal_observer.cpp:188-198 | a delivery keeps a consistent state consistent exactly if it overtakes no older cache that holds another value, with nothing newer on its way, for any action, subscribed or not |
| `ActionObserver.DeliveryIsExact` | services/native/src/thermal_observer/thermal_observer.cpp:188-198 | the same for one listener and one action it has subscribed to |
| `ActionObserver.OvertakingLeavesStaleView` | services/native/src/thermal_observer/thermal_observer.cpp:174-199 | a concrete run of two flushes delivered in the wrong order that leaves a view stale for good |
| `Delivery.DeliveryTellsExactly` | services/native/src/thermal_observer/thermal_observer.cpp:188-218 | a delivery tells a listener the delivered value of exactly the actions it or an earlier listener has subscribed to, and changes nothing else it has been told |
| `Delivery.SubscriptionTellsExactly` | services/native/src/thermal_observer/thermal_observer.cpp:124-143 | a new listener is told the current values of exactly the actions it lists; a known one is told nothing and keeps its subscription |
| `Delivery.SubscriptionsFollowEvents` | services/native/src/thermal_observer/thermal_observer.cpp:124-161 | over any run a listener has the list of its first subscription since it unsubscribed |
| `Delivery.ValuesFollowEvents` | services/native/src/thermal_observer/thermal_observer.cpp:176-239 | over any run the full map holds the values set last, and the pending map those set since they were taken away |
| `Delivery.ViewsFollowEvents` | services/native/src/thermal_observer/thermal_observer.cpp:188-218 | over any run, in any order of delivery, a listener holds of an action the value at its subscription or the one delivered last while it or an earlier listener wanted it |
| `Delivery.ToldWhatWasWanted` | services/native/src/thermal_observer/thermal_observer.cpp:207-220 | over any run, whatever a listener holds was wanted by it or an earlier listener when it was told |
| `Delivery.ToldWhatWasSet` | services/native/src/thermal_observer/thermal_observer.cpp:174-239 | over any run nobody is told a value that was not set |
| `TempObserver.ThermalObserver.OnReceivedSensorInfo` | services/native/src/thermal_observer/thermal_observer.cpp:268-281 | a registered policy gets the report as it came, then it is notified, and a subscribed sensor it lacks stays in it with a 0 |
| `TempObserver.ThermalObserver.NotifySensorTempChanged` | services/native/src/thermal_observer/thermal_observer.cpp:241-266 | each listener is told exactly the changed types of its own and earlier listeners; nothing happens without listeners |
| `TempObserver.ThermalObserver.SubscribeThermalTempCallback` | services/native/src/thermal_observer/thermal_observer.cpp:89-106 | a new listener starts with nothing told, a known one is ignored |
| `TempObserver.ThermalObserver.UnSubscribeThermalTempCallback` | services/native/src/thermal_observer/thermal_observer.cpp:108-122 | the listener and its subscription are gone |
| `TempObserver.NotificationIsComplete` | services/native/src/thermal_observer/thermal_observer.cpp:241-266 | over any run the last told value of a subscribed type is the reading of the latest report, missing sensors being 0, and it has been told exactly if some report since the subscription differed from the shared table at that time |
| `TempObserver.UntoldMeansUnchanged` | services/native/src/thermal_observer/thermal_observer.cpp:241-266 | a type never told has read the same ever since the listener subscribed |
| `TempDelivery.SubscriptionsFollowEvents` | services/native/src/thermal_observer/thermal_observer.cpp:89-122 | over any run a listener has the list of its first subscription since it unsubscribed |
| `TempDelivery.ViewsFollowEvents` | services/native/src/thermal_observer/thermal_observer.cpp:241-266 | over any run a listener has been told of a type exactly the reading of the latest report that differed from the shared table while it or an earlier listener wanted the type, and the table is that of the reports |
| `Distribution.RunKeepsJoined` | services/native/src/thermal_action/action/action_soc/action_cpu_big.cpp:66-90 | over any run of an action and the observer, while the device holds a value the full map holds the same |
| `Distribution.ViewsHoldTheLastDecision` | services/native/src/thermal_action/action/action_soc/action_cpu_big.cpp:66-90 | over any run that overtakes nothing, a subscriber with nothing of the action on its way has been told the value arbitrated last, unless only the reset value has been arbitrated since a reset |
| `Distribution.DecimalReadsBack` | services/native/src/thermal_action/action/action_soc/action_cpu_big.cpp:82-86 | the text handed to the observer is a numeral without leading zeros that reads back as the value |
| `ProtectorZone.ProtectorThermalZoneInfo.UpdateThermalLevel` | application/protector/src/policy/protector_thermal_zone_info.cpp:22-32 | the zone takes the same hysteresis step, within 0..n |
| `ProtectorZone.ProtectorThermalZoneInfo.AscJudgment` | application/protector/src/policy/protector_thermal_zone_info.cpp:34-54 | all branches together compute the step of an ascending zone |
| `ProtectorZone.ProtectorThermalZoneInfo.DescJudgment` | application/protector/src/policy/protector_thermal_zone_info.cpp:56-77 | all branches together compute the step of a descending zone |
| `ProtectorZone.ProtectorThermalZoneInfo.HandleAscNextUpTemp` | application/protector/src/policy/protector_thermal_zone_info.cpp:79-89 | the climb |
| `ProtectorZone.ProtectorThermalZoneInfo.HandleAscCurDownTemp` | application/protector/src/policy/protector_thermal_zone_info.cpp:91-101 | the fall |
| `ProtectorZone.ProtectorThermalZoneInfo.HandleAscMaxSizeTemp` | application/protector/src/policy/protector_thermal_zone_info.cpp:103-116 | the fall from the top |
| `ProtectorZone.ProtectorThermalZoneInfo.HandleAscMinSizeTemp` | application/protector/src/policy/protector_thermal_zone_info.cpp:118-133 | the climb from level 0 |
| `ProtectorZone.ProtectorThermalZoneInfo.HandleDescNextUpTemp` | application/protector/src/policy/protector_thermal_zone_info.cpp:135-145 | the climb of a descending zone |
| `ProtectorZone.ProtectorThermalZoneInfo.HandleDescCurDownTemp` | application/protector/src/policy/protector_thermal_zone_info.cpp:147-157 | the fall of a descending zone |
| `ProtectorZone.ProtectorThermalZoneInfo.HandleDescMaxSizeTemp` | application/protector/src/policy/protector_thermal_zone_info.cpp:159-172 | the fall of a descending zone from the top |
| `ProtectorZone.ProtectorThermalZoneInfo.HandleDescMinSizeTemp` | application/protector/src/policy/protector_thermal_zone_info.cpp:174-189 | the climb of a descending zone from level 0 |
| `ProtectorZone.ImplementationsAgree` | application/protector/src/policy/protector_thermal_zone_info.cpp:22-189 | over any run and in both directions a zone and a single-sensor ungated cluster of the service are at the same level |
| `Schedule.EuclidIsCorrect` | application/protector/src/policy/thermal_kernel_policy.cpp:119-130 | for a positive second interval the recursion ends in the greatest common divisor |
| `Schedule.TruncatedDivision` | application/protector/src/policy/thermal_kernel_policy.cpp:119-142 | quotient and remainder of the schedule round toward zero |
| `Schedule.DivisorIsRightExactly` | application/protector/src/policy/thermal_kernel_policy.cpp:119-130 | for intervals that are not negative the answer is right exactly if the second is positive or the first is zero too |
| `Schedule.GetIntervalCommonDivisor` | application/protector/src/policy/thermal_kernel_policy.cpp:144-156 | the loop is the fold of the divisor over the list, 0 for the empty list |
| `Schedule.ZeroForgets` | application/protector/src/policy/thermal_kernel_policy.cpp:144-156 | for intervals that are not negative the fold is the greatest common divisor of those after the last zero |
| `Schedule.FoldIsGcd` | application/protector/src/policy/thermal_kernel_policy.cpp:144-156 | for positive intervals the fold is their greatest common divisor |
| `Schedule.FoldIsRightExactly` | application/protector/src/policy/thermal_kernel_policy.cpp:144-156 | with zeros among them the answer is right exactly if every common divisor of the intervals after the last zero divides all of them |
| `Schedule.ZeroSpoilsTheDivisor` | application/protector/src/policy/thermal_kernel_policy.cpp:121-123 | a concrete list with a zero for which it is wrong |
| `Schedule.ThermalKernelPolicy.CalculateMaxCd` | application/protector/src/policy/thermal_kernel_policy.cpp:158-170 | the fold over the intervals of all zones |
| `Schedule.ThermalKernelPolicy.SetMultiples` | application/protector/src/policy/thermal_kernel_policy.cpp:132-142 | every zone gets its interval divided by the common divisor, unless that is 0 |
| `Schedule.MultiplesAreExact` | application/protector/src/policy/thermal_kernel_policy.cpp:132-142 | for positive intervals multiple times divisor is the interval, and only 1 divides all multiples |
| `Schedule.ReportThermalZoneData` | application/protector/src/thermal_sensor_provision.cpp:216-247 | collects the multiples in use, and the readings of the zones that are due |
| `Schedule.CountedExactly` | application/protector/src/thermal_sensor_provision.cpp:218-226 | the multiples in use are those of the zones without the zeros, each as often as it occurs |
| `Schedule.ReadingsAre` | application/protector/src/thermal_sensor_provision.cpp:227-246 | a zone is in the report exactly if it has a multiple, the multiple divides the report time, and its file can be read |
| `Schedule.ThermalProtectorTimer.TimerProvisionCallback` | application/protector/src/thermal_protector_timer.cpp:90-102 | one expiry counts, reports and starts over; a failed read of the timer changes nothing |
| `Schedule.ThermalProtectorTimer.ResetCount` | application/protector/src/thermal_protector_timer.cpp:185-195 | the count starts over exactly at the largest multiple in use |
| `Schedule.CountIsRemainder` | application/protector/src/thermal_protector_timer.cpp:90-102 | after n ticks the count is n modulo the largest multiple |
| `Schedule.NextReading` | application/protector/src/thermal_protector_timer.cpp:185-195 | once due, a zone is next due after exactly its gap, at least m and at most 2m - 1 ticks, and at no tick between |
| `Schedule.FirstReading` | application/protector/src/thermal_protector_timer.cpp:90-102 | a zone is first due at the tick of its multiple |
| `Schedule.EvenlySpacedExactly` | application/protector/src/thermal_protector_timer.cpp:185-195 | all gaps equal the multiple exactly if it divides the largest one |
| `Schedule.ReadInTime` | application/protector/src/thermal_sensor_provision.cpp:227-246 | a readable zone is read again after m to 2m - 1 ticks, and not before |
| `Sorting.AnySortAgreesExactly` | services/native/src/thermal_policy/thermal_config_sensor_cluster.cpp:345-382 | every sort gives the list the model uses exactly if entries with equal keys are equal |
| `SplitString.SplitString` | utils/native/src/string_operation.cpp:29-54 | appends exactly the nonempty fields, in order, of the text from its first character that does not occur in the separator, and ends; for any separator that is not empty |
| `SplitString.SplittingEndsExactly` | utils/native/src/string_operation.cpp:29-54 | on a text that is not empty the loop ends exactly if the separator is not empty |
| `SplitString.TrimmingIsHarmless` | utils/native/src/string_operation.cpp:29-54 | for a separator of one character it makes no difference where the search begins: the fields are those of the whole text |
| `SplitString.JoinOfFields` | utils/native/src/string_operation.cpp:29-54 | the fields of a text join back to it, and each ends at the first separator |
| `SplitString.FieldsOfJoin` | utils/native/src/string_operation.cpp:29-54 | they are the only ones: strings of which each ends at the first separator are the fields of their join |
| `SplitString.SplitUndoesJoinExactly` | utils/native/src/string_operation.cpp:29-54 | splitting undoes joining exactly for nonempty fields of which each ends at the first separator and the first does not begin with a separator character, and for no fields |
| `SplitString.SplitUndoesJoin` | utils/native/src/string_operation.cpp:29-54 | so for a separator of one character it does for all nonempty separator-free fields |
| `SplitString.ClearingEndsExactly` | utils/native/src/string_operation.cpp:56-65 | the loop that removes spaces ends exactly if there is no space |
| `SplitString.ClearingErasesTheRest` | utils/native/src/string_operation.cpp:56-65 | otherwise it erases everything from the first space on, in a copy |

## Left out

- Parsing and decryption of the XML configuration, IPC, language bindings, logging, events, popup, shutdown, audio and SOC clients: input and output without a property of their own.
- Real threads: every section under one lock is one atomic step. A timer that fires while a round executes is not modelled.
- The other action classes: they differ from `ActionCpuBig` in the fallback and reset values, which are parameters here. The float actions compare with a tolerance and are not modelled.
- `std::stoi`, `strtol` and the conversion of values to and from text: values are numbers, an empty text is `None`, and a delay text has been split and parsed already.
- An execution whose service pointer is null, and actions missing from the action manager's map under a null pointer.
- The limits of several cores set by `multiCoreflag_`: the device is one value.
- `Schedule.GetIntervalCommonDivisor`: for negative intervals it says what the loop folds, not that this is a common divisor; the theorems are about intervals that are not negative.
- `Schedule.ThermalKernelPolicy.SetMultiples`: zones left without a multiple keep the value they had; in the source that value is uninitialised.
- `SplitString.SplitString`: requires a text without spaces and, unless it is empty, a separator that is not, because the source does not return otherwise (`SplitString.ClearingEndsExactly`, `SplitString.SplittingEndsExactly`).
- `SensorCluster.ThermalConfigSensorCluster.IsTempDiffTrigger`: with several entries at one temp-diff level, which `CheckStandard` accepts, the entry that answers is the one a stable sort puts there; the source leaves it open.
- `EndToEnd.HotterNeverLoosens`: the same timers fire at the same moments in both runs, and both see the same state conditions.
- `WarmUp.RateWarmUp`: about clusters in which every sensor asks for a positive rise rate at level 1.
- Protector level decision and actions: the level map keeps the first level of a zone (`application/protector/src/policy/thermal_kernel_policy.cpp:46` inserts and does not overwrite), so nothing is claimed about what follows the zone's level.
- The outer loop of the protector's timer, which stops after two wake-ups (`application/protector/src/thermal_protector_timer.cpp:147`): the schedule is about the callback applied any number of times.
- The length of a delay: the delay of an entry is kept, but its timer may fire at any moment once it runs.
- Fan fault detection, scenes, screen, charging and startup states, factories and dumps: no property that spans operations.
- `GetThermalSrvSensorInfo` and the writing of levels to a file for simulation.
