# console-operator: a verified model

A Dafny model of the parts of the Cray console operator that keep distributed state
consistent, with proofs of what they guarantee. `dafny verify dfyconfig.toml` checks all of
it.

## What is modelled

- `Inventory`, `Reconcile`, `ReconcileRuns`, with `FiniteSets` and `Sublists` for lemmas about
  collections: the loop that reconciles HSM's node inventory with the local cache and with
  console-data, as a transition system with every outcome its requests may have. The countdown that forces a full push is what makes the cache safe to
  trust, and how safe is the subject of the run-long theorems.
- `OperatorLoop`: the same loop in the form in which it runs (global variables, loops over
  maps of any order), each method tied to the transition system, and publishing included.
- `Interleaving`: the loop at the granularity at which unlocked clearData handlers really
  interleave with it: exactly which deletes break the atomic invariant,
  self-stabilisation within eleven rounds after they do, and what is sent for key deployment.
- `Scaling`, `FloatCeiling`: the pod arithmetic over integers, its exact relation to the hard
  maxima and to coverage, and the proof that the 64-bit floating-point form computes it.
- `Publish`, `Publisher`: replica count, target file, in-memory targets and the error counter,
  as runs and as the class that performs them.
- `KeyQueue`, `KeyDeploy`: the Mountain key-deployment queue, its conservation law and its
  consumer.
- `HsmJoin`: the join of state components with redfish endpoints.
- `EndToEnd`: the loop and the consumer composed, with atomic rounds and with interleaving
  handlers, and the loop and the publication composed.

## Assumptions about the outside

- A console-data PUT upserts by node name; an answer below 400 means all of it was applied,
  an error may follow any part of it. A DELETE removes by node name; any part may be lost.
  Nothing else changes the inventory held there.
- Replica reads and updates fail or succeed arbitrarily; a failed update may have been applied.
- HSM reports, scsd replies, environment variables and scheduling are arbitrary. `UniqueNames`
  is required only where a statement equates whole records, and is derived from unique
  component IDs in `HsmJoin.UniqueIdsGiveUniqueNames`.

## Where the code differs from its own comments

- src/console_op/nodes.go:335 adds the replica padding when the replica count could *not* be
  read, where it is -1; so the padding removes the slack of one instead of adding to it. The
  model follows the code (`Target` with `readFailed`).
- src/console_op/consoleOpMain.go:64-65 calls the maxima hard. With the slack of one a target
  exceeds its maximum for some counts from the square of the maximum on:
  `SquareBreaksTheMaximum`; `HardMaximumExactly` gives the exact condition and
  `BelowSquareIsSafe` the range on which it always holds. A maximum lowered on request is not
  applied to targets already published: `LoweredMaximumIsOvertaken`,
  `StoredWithinPresentMaximaExactly`, `OnlyLoweringOvertakes`.
- src/console_op/consoleOpMain.go:205 speaks of a complete update every 10 times; it is every
  eleventh active round: `ForcedWithinEleven`, `CountdownExactly`.
- src/console_op/k8s.go:246-247 promises a retry if writing goes wrong; that holds for a failed
  open (`RetriedUntilOpened`) but not for a failed write (`LostWriteIsNotRetried`), which, while
  the inventory stays the same, only a failed replica read makes good (`RewrittenExactly`, `FailedReadThenGoodRewrites`).
  `RetriedExactly` and `TargetsMatchTheFile` are the exact conditions.
- src/console_op/creds.go:428-429 announces codes below 400 as success but accepts only those below 300.
  A transport error gives -1, which passes, but without targets it drops nothing.
- src/console_op/debug.go:197-200 says cleared nodes are picked up on the next query; an
  interleaving with a running round can delay that until the next forced round:
  `LateClearHidesANode`, `MissingUntilForced`, `StabilisesWithinEleven`. Only a handler's
  delete can do it, and only of a name the loop relies on at that moment:
  `GuardedRunsKeepTheInvariant`, `DeleteIsHarmlessExactly`.
- A node that becomes Mountain or Hill while it is cached is not sent for key deployment
  (`QueuedExactly`); for names that are always reported so, being cached means having been sent
  under every interleaving (`CachedMountainWasSent`), and `WipeInScanSkipsANode` shows that the
  restriction is needed.

## Model

| member | source | states |
|---|---|---|
| `Inventory.ByNameIndexes` | src/console_op/consoleOpMain.go:86-89 | the index of a report has exactly the reported names as keys, each mapped to a reported record of that very name |
| `Inventory.LastRecordWins` | src/console_op/consoleOpMain.go:86-89 | of several reported records of one name the last is indexed |
| `Inventory.ClassCountsPartition` | src/console_op/consoleOpMain.go:153-164 | the mountain, river and unknown counts partition the cache |
| `Inventory.CountsByClass` | src/console_op/consoleOpMain.go:157-160 | the mountain count is the cached nodes of class Mountain, Hill or Paradise, the river count those of class River |
| `Reconcile.NewNodesAre` | src/console_op/consoleOpMain.go:91-98 | the new nodes are exactly the reported records whose name is not cached |
| `Reconcile.NewNodesOccur` | src/console_op/consoleOpMain.go:91-98 | every uncached record is listed as often as it is reported, and no cached one |
| `Reconcile.NewNodesInOrder` | src/console_op/consoleOpMain.go:91-98 | the new nodes are the report at exactly the positions of uncached names, in order |
| `Reconcile.SuccessfulRoundCovers` | src/console_op/consoleOpMain.go:109-135 | after a successful round every reported name is in console-data, although new nodes only were pushed and deletes may have been lost |
| `Reconcile.InvStep` | src/console_op/consoleOpMain.go:80-140 | every round, clearData, suspend and resume keeps the trust invariant |
| `Reconcile.CachedNamesArePresent` | src/console_op/consoleOpMain.go:187-213 | in every reachable state the countdown is in 0..10 and either a forced update is pending or every cached name is in console-data, whatever PUTs fail half-way and whatever DELETEs are lost |
| `ReconcileRuns.CountdownWithoutForce` | src/console_op/consoleOpMain.go:202-212 | without a forced round the countdown falls by at least one per active round and not at all in suspended passes |
| `ReconcileRuns.ForcedWithinEleven` | src/console_op/consoleOpMain.go:198-213 | any stretch of a run with eleven active rounds contains a forced one |
| `ReconcileRuns.CountdownExactly` | src/console_op/consoleOpMain.go:202-212 | from ten, through successful rounds, the countdown is exactly ten less the active rounds so far: the next forced round is the eleventh and no earlier one |
| `ReconcileRuns.SuspendStopsRounds` | src/console_op/debug.go:234 | after a suspend, until a resume, no round is active, nothing is sent, the countdown stands still, and only clearData changes cache or console-data |
| `ReconcileRuns.ResumeRestartsRounds` | src/console_op/debug.go:252 | after a resume, until the next suspend, every pass is an active round |
| `ReconcileRuns.ForcedRoundIsFresh` | src/console_op/consoleOpMain.go:109-135 | right after a successful forced round every cached node's stored record is from the current report |
| `ReconcileRuns.PlainRoundStaysFresh` | src/console_op/consoleOpMain.go:91-135 | a plain round ages stored records by at most one report |
| `ReconcileRuns.BoundedStaleness` | src/console_op/consoleOpMain.go:187-213 | whenever the latest active round succeeded, every cached node's stored record is one HSM reported in the last 11 - forceUpdateCnt active rounds |
| `ReconcileRuns.RecordIsFrozenUntilForced` | src/console_op/consoleOpMain.go:91-119 | without a forced round the stored record of a cached, still reported node never changes |
| `ReconcileRuns.StalenessBoundIsReached` | src/console_op/consoleOpMain.go:91-135 | a run from startup, all requests successful, after which the stored record was last reported eleven active rounds ago and in none of the ten since |
| `ReconcileRuns.NoStrayStep` | src/console_op/consoleOpMain.go:100-135 | with reliable requests a step adds no name to console-data that is not cached |
| `ReconcileRuns.NamesAgree` | src/console_op/consoleOpMain.go:100-135 | with reliable requests console-data's names are cached or left over from before the start; from an empty store they equal the cached names whenever no forced update is pending |
| `ReconcileRuns.OrphanStays` | src/console_op/data.go:126-147 | a stored name that is neither cached nor reported again is never touched by any later event |
| `ReconcileRuns.LostDeleteIsNeverRetried` | src/console_op/data.go:139-140 | a delete lost in a successful round leaves its record in place for ever unless HSM reports the node again |
| `ReconcileRuns.FailedRoundIsRepeated` | src/console_op/consoleOpMain.go:116-135 | through whatever suspensions and clearData follow a failed round, the next active round is forced and pushes its whole report; unless the data was cleared it finds the same nodes new and repeats the deletes |
| `ReconcileRuns.FailedRoundCanHideANode` | src/console_op/consoleOpMain.go:116-135 | a run in which a failed PUT and its round's delete leave a cached name absent, so the pending-update case of the main invariant is needed |
| `ReconcileRuns.MountainsAre` | src/console_op/consoleOpMain.go:172-176 | the nodes sent are exactly the records of class Mountain or Hill of the list |
| `ReconcileRuns.EnteringMountainIsQueued` | src/console_op/consoleOpMain.go:167-177 | a node that enters the cache as Mountain or Hill is sent in the same round, so the mountain-count gate never suppresses it |
| `ReconcileRuns.QueuedExactly` | src/console_op/consoleOpMain.go:137-177 | a committing round sends exactly the reported nodes of class Mountain or Hill that were not cached before; one reclassified while cached is not sent |
| `ReconcileRuns.SentInReportOrder` | src/console_op/consoleOpMain.go:93-98 | every round sends in report order, from different positions of the report |
| `ReconcileRuns.SentExactlyOnce` | src/console_op/consoleOpMain.go:93-177 | with unique names a committing round sends each entering Mountain or Hill node exactly once and nothing else |
| `ReconcileRuns.QueuedByFailureExactly` | src/console_op/consoleOpMain.go:137-177 | a failed round sends exactly the reported Mountain or Hill nodes that are not cached, and only if the old cache holds a node of the mountain class |
| `ReconcileRuns.FailedRoundsResend` | src/console_op/consoleOpMain.go:135-177 | until a round succeeds or the data is cleared, each failed round with the same report sends the same nodes again |
| `ReconcileRuns.CachedMountainWasQueued` | src/console_op/consoleOpMain.go:143-181 | over any run every cached name entered in some round, stayed since, and was sent in that round if Mountain or Hill then |
| `OperatorLoop.CountClasses` | src/console_op/consoleOpMain.go:153-164 | for any iteration order the counts are the cached nodes of class Mountain, Hill or Paradise, and of class River |
| `OperatorLoop.ConsoleData.DataAddNodes` | src/console_op/data.go:67-105 | success if and only if there was no error and the code is below 400; then every record was upserted, otherwise any part |
| `OperatorLoop.ConsoleData.DataRemoveNodes` | src/console_op/data.go:108-149 | nothing is reported back and any part of the delete may be lost; other names are untouched |
| `OperatorLoop.Operator.constructor` | src/console_op/consoleOpMain.go:48-49 | the operator starts with an empty cache, a forced update pending and updates enabled |
| `OperatorLoop.Operator.IndexReport` | src/console_op/consoleOpMain.go:84-89 | the loop builds the name index of the report |
| `OperatorLoop.Operator.FindNew` | src/console_op/consoleOpMain.go:91-98 | the loop finds the new nodes, in order |
| `OperatorLoop.Operator.FindRemoved` | src/console_op/consoleOpMain.go:100-107 | for any map order exactly the cached records whose own name is no longer reported |
| `OperatorLoop.Operator.UpdateCachedNodeData` | src/console_op/consoleOpMain.go:80-140 | which list is pushed, what is deleted, and that the cache is committed exactly on success |
| `OperatorLoop.Operator.SendMountains` | src/console_op/consoleOpMain.go:172-176 | hands over exactly the Mountain and Hill nodes, in order |
| `OperatorLoop.Operator.DoHardwareUpdate` | src/console_op/consoleOpMain.go:143-181 | new cache, console-data and published values from the old state and the outcomes; nodes are sent if a mountain node is cached and publishing did not panic |
| `OperatorLoop.Operator.WatchHardwarePass` | src/console_op/consoleOpMain.go:194-213 | one pass is one Tick of the transition system, sends what that round sends and publishes the counts of the cache it leaves; after an error or a code of 400 or more the cache is kept and the next active pass is forced, otherwise the report is committed; a suspended pass publishes nothing |
| `OperatorLoop.Operator.CountDown` | src/console_op/consoleOpMain.go:202-212 | the countdown wraps to ten below zero and is reset to zero after a failure |
| `OperatorLoop.Operator.DoClearData` | src/console_op/debug.go:211-217 | clearData is one ClearData event |
| `OperatorLoop.Operator.DoSuspend` | src/console_op/debug.go:234 | the shutdown flag is set and nothing else changes |
| `OperatorLoop.Operator.DoResume` | src/console_op/debug.go:252 | the shutdown flag is cleared and nothing else changes |
| `Interleaving.ScanFindsNewNodes` | src/console_op/consoleOpMain.go:91-98 | scanning node by node against an unchanged cache finds the new nodes |
| `Interleaving.UninterruptedRoundIsATick` | src/console_op/consoleOpMain.go:80-181 | a round at step granularity that nothing interrupts is exactly one atomic Tick, including what it sends |
| `Interleaving.UninterruptedClearIsAtomic` | src/console_op/debug.go:211-217 | the copy, wipe and delete of an uninterrupted handler are exactly one atomic ClearData |
| `Interleaving.NoFetchWhileSuspended` | src/console_op/debug.go:234 | between a suspend and the next resume no round starts, whatever else interleaves |
| `Interleaving.FetchAfterResume` | src/console_op/debug.go:252 | after a resume, until the next suspend, the loop at rest can start a round |
| `Interleaving.WellFormedRuns` | src/console_op/consoleOpMain.go:80-213 | in every run from startup, whatever handlers do, the cache is keyed by name, the countdown is in 0..10 and a round's delete spares every reported name |
| `Interleaving.NeededStep` | src/console_op/consoleOpMain.go:91-135 | no step but a handler's delete makes absent a name that the round will have cached and will not push any more; wipes only reduce what is needed |
| `Interleaving.GuardedStep` | src/console_op/debug.go:211-217 | every step keeps the loop invariant, wipes at any point and failing requests included, unless a handler deletes a name relied on |
| `Interleaving.GuardedRunsKeepTheInvariant` | src/console_op/debug.go:211-217 | in every run in which no handler deletes a name relied on at that moment, the atomic invariant holds whenever the loop rests |
| `Interleaving.DamageSurfaces` | src/console_op/consoleOpMain.go:91-135 | a name relied on and absent comes to rest cached and absent with no forced update pending, although every further request succeeds |
| `Interleaving.ReliedExactly` | src/console_op/consoleOpMain.go:91-213 | at any point of a round, all continuations without further deletes by handlers come to rest with the atomic invariant if and only if every name relied on is in console-data |
| `Interleaving.DeleteIsHarmlessExactly` | src/console_op/debug.go:216-217 | wherever it falls, a handler's delete is harmless in all its outcomes and at all later rest points if and only if the handler copied no name relied on |
| `Interleaving.OrderlyRunsAreGuarded` | src/console_op/debug.go:211-217 | if no round starts between a wipe and its delete and neither falls into a round, no handler deletes a name relied on |
| `Interleaving.GoodStep` | src/console_op/consoleOpMain.go:91-135 | every step of a calm run keeps the per-step stabilised condition |
| `Interleaving.WaitStep` | src/console_op/consoleOpMain.go:202-212 | each round start brings the forced round one closer |
| `Interleaving.StabilisesWithinEleven` | src/console_op/consoleOpMain.go:187-213 | from any cache, store and half-done round, with no clearData in progress and PUTs succeeding, after eleven further round starts every cached name is in console-data whenever the loop rests |
| `Interleaving.ForcingStep` | src/console_op/consoleOpMain.go:110-135 | an undisturbed forced round ends with stored and cached records equal |
| `Interleaving.RecordsAgreeWithinEleven` | src/console_op/consoleOpMain.go:187-213 | within those eleven rounds the loop rests after a forced round with every cached record in console-data |
| `Interleaving.MissingStep` | src/console_op/consoleOpMain.go:91-98 | no step of an unforced round pushes a needed name that is absent |
| `Interleaving.MissingUntilForced` | src/console_op/consoleOpMain.go:91-119 | the wait is necessary: a cached name console-data has lost stays lost until a round starts with the countdown at zero |
| `Interleaving.LateClearHidesANode` | src/console_op/debug.go:211-217 | a run from startup, every request successful, in which clearData wipes before a round and deletes after it: cached, absent, and no forced update pending |
| `Interleaving.FinishSendsExactly` | src/console_op/consoleOpMain.go:167-177 | for a cached mountain node the end of a round sends a record of that name if and only if its scan found a Mountain or Hill record of it new |
| `Interleaving.SentStep` | src/console_op/consoleOpMain.go:91-177 | every step, handlers included, keeps: cached means sent, and reported means sent or about to be |
| `Interleaving.CachedMountainWasSent` | src/console_op/consoleOpMain.go:143-181 | under every interleaving and failure a cached name that HSM only ever reports as Mountain or Hill has been sent whenever the loop rests |
| `Interleaving.WipeInScanSkipsANode` | src/console_op/debug.go:211-217 | a run from startup in which a wipe during the scan lets a node that became Mountain enter an empty cache without being sent |
| `Scaling.CeilDivLeast` | src/console_op/nodes.go:316-318 | the rounded-up quotient is the least number of pods that hold the nodes |
| `Scaling.PodsAreResilientAndMinimal` | src/console_op/nodes.go:294-322 | at least two pods; all but one hold every node at the maxima, all but two do not for some class |
| `Scaling.NonPositiveMaximumIsOne` | src/console_op/nodes.go:312-314 | a maximum that is zero or negative acts as one |
| `Scaling.PodsAreMonotone` | src/console_op/nodes.go:316-322 | more nodes never need fewer pods and larger maxima never need more |
| `Scaling.ToInt32IsExactInRange` | src/console_op/k8s.go:171-173 | the 32-bit conversion keeps a count exactly when it fits and otherwise is off by a multiple of 2^32 |
| `Scaling.PodsFitInt32` | src/console_op/k8s.go:171-173 | the pod count survives the 32-bit conversion for counts up to 2^31-2 |
| `Scaling.TargetWithin` | src/console_op/nodes.go:327-333 | a target with slack is within the maximum exactly when the pods hold the class with one slot less each |
| `Scaling.HardMaximumExactly` | src/console_op/consoleOpMain.go:61-67 | the hard maximum holds whatever the other class needs, if and only if the fewest pods for the class number less than the maximum plus their spare slots |
| `Scaling.BelowSquareIsSafe` | src/console_op/nodes.go:312-347 | every count below the square of its maximum respects the hard maximum |
| `Scaling.SquareBreaksTheMaximum` | src/console_op/nodes.go:312-347 | a count equal to the square exceeds the hard maximum by one unless the other class forces more pods, for either class |
| `Scaling.ReadErrorKeepsTheMaximum` | src/console_op/nodes.go:334-339 | when the replica count cannot be read the targets lose their slack and respect the maxima for every count |
| `Scaling.TargetsHoldTheClass` | src/console_op/nodes.go:327-339 | all pods at target hold the class with a slot per pod to spare, or exactly hold it after a read error |
| `Scaling.UnclaimedLeavesRoom` | src/console_op/nodes.go:327-347 | while a node is unclaimed at least P+1 slots are free, at least one after a read error |
| `Scaling.ClaimingCanAlwaysFinish` | src/console_op/nodes.go:327-347 | any claims within the targets extend to a complete assignment within the targets |
| `FloatCeiling.RoundedQuotient` | src/console_op/nodes.go:317-318 | rounding loses less than one unit of the numerator |
| `FloatCeiling.CeilingSurvivesRounding` | src/console_op/nodes.go:317-318 | the ceiling of the rounded quotient is the integer ceiling, for every machine integer as divisor |
| `FloatCeiling.FloatCeilingIsExact` | src/console_op/nodes.go:312-318 | also when the divisor itself is rounded on conversion |
| `FloatCeiling.FloatPodsAreExact` | src/console_op/nodes.go:312-318 | the floating-point pod count of a class equals the integer one |
| `FloatCeiling.FloatTargetIsExact` | src/console_op/nodes.go:332-333 | the floating-point target equals the integer one |
| `Publish.PanicsExactlyOnTheFifth` | src/console_op/k8s.go:190-239 | in every run the error counter is the failed attempts since the last successful open, at most four, and the process panics exactly on the fifth |
| `Publish.StoredTargets` | src/console_op/k8s.go:224-249 | in every run the targets are -1 and the old file is in place until an update opens the file; afterwards both are what the latest such update computed and wrote |
| `Publish.TargetsMatchTheFile` | src/console_op/k8s.go:238-249 | the file agrees with the targets in memory if and only if both writes of the latest successful open succeeded |
| `Publish.FileLinesExactly` | src/console_op/k8s.go:243-244 | each line is in the file if and only if its own write of the latest successful open succeeded, with the target in memory, and nothing else is in it |
| `Publish.RangesHold` | src/console_op/debug.go:131-136 | over every run the maxima stay in 2..1500 and 2..4000 and the pod count is -1 or at least two |
| `Publish.PinIsNearest` | src/console_op/debug.go:66-80 | a request is pinned to the one value in range that is nearest to it |
| `Publish.LatestRequestDecides` | src/console_op/debug.go:131-140 | each maximum is the value nearest to its own number of the latest request, in 2..750 and 2..2000 |
| `Publish.StoredWithinMaxima` | src/console_op/nodes.go:293-348 | in every run the stored targets are -1 or respect the maxima in force at the update that stored them, for counts below their squares |
| `Publish.StoredWithinPresentMaximaExactly` | src/console_op/nodes.go:327-347 | stored targets are within the maxima in force now if and only if the pods chosen then, filled to the present maximum less the slack, hold the nodes counted then |
| `Publish.OnlyLoweringOvertakes` | src/console_op/debug.go:131-136 | for counts below the square, only lowering a maximum after the storing update can leave stored targets above it |
| `Publish.LoweredMaximumIsOvertaken` | src/console_op/debug.go:131-136 | a run in which a lowered maximum of 11 leaves a target of 51 in memory and in the file |
| `Publish.PodCountWasHeld` | src/console_op/k8s.go:170-187 | in every run the pod count in memory is -1 or one an update computed and the stateful set held right after it, already or by an update that succeeded |
| `Publish.FailedUpdateKeepsPodCount` | src/console_op/k8s.go:174-180 | a failed replica read or update, even one applied anyway, leaves the pod count in memory alone |
| `Publish.TotalsAreLatest` | src/console_op/nodes.go:301-309 | in every run the totals in memory are the counts of the latest update of a non-empty inventory, whatever else of it failed |
| `Publish.UpdateCorrectsDrift` | src/console_op/nodes.go:293-348 | from any state one fully successful update sets replicas, totals and targets to the computed values with room for all nodes, and a second changes nothing |
| `Publish.StaleReplicasUndercover` | src/console_op/nodes.go:324-345 | targets published after a failed replica update can leave nodes uncovered |
| `Publish.FailedOpenUndercovers` | src/console_op/nodes.go:324-345 | replicas that change while the file cannot be opened can leave nodes uncovered |
| `Publish.CoverageExactly` | src/console_op/nodes.go:324-345 | an update leaves a class covered if and only if: when the file had to be opened and could not be, the old target suffices for the resulting replicas; otherwise the requested replicas were applied or those in place before number at least the pods of the new target size it needs |
| `Publish.EnoughReplicasCover` | src/console_op/nodes.go:324-345 | with at least the computed number of replicas in place afterwards, a class is covered if and only if the new targets are in place or the old ones, which could not be replaced, suffice |
| `Publish.RetriedExactly` | src/console_op/k8s.go:224-249 | after an attempted file update the same inventory is tried again if and only if its replica read fails, or the open had failed with other targets in memory, or the open stored targets padded after a failed read; a failed write is no reason |
| `Publish.RetriedUntilOpened` | src/console_op/k8s.go:224-249 | over any run of updates of one inventory whose opens fail, whatever the replica reads do, every update tries again and memory and file stay as they were |
| `Publish.LostWriteIsNotRetried` | src/console_op/k8s.go:242-249 | a failed write after a successful open stays in the file through all updates of the same inventory, as long as no update both fails its replica read and opens the file |
| `Publish.RewrittenExactly` | src/console_op/k8s.go:224-249 | updates of the same inventory write the file again if and only if, while the process lives, some replica read fails in an update that can open the file |
| `Publish.FailedReadThenGoodRewrites` | src/console_op/nodes.go:334-347 | a failed replica read followed by a good one repairs the file from any state |
| `Publisher.ReadSingleEnvVarInt` | src/console_op/consoleOpMain.go:222-242 | unset or non-integer keeps the current value, an integer goes to the nearest value in range |
| `Publisher.PinNumNodes` | src/console_op/debug.go:66-80 | the request forced into range, and whether it was in range |
| `Publisher.K8Manager.constructor` | src/console_op/consoleOpMain.go:51-67 | all published values start at -1; each maximum is its default without an integer, and otherwise the integer pinned to its range |
| `Publisher.K8Manager.GetReplicaCount` | src/console_op/k8s.go:122-139 | the replica count, or -1 with an error |
| `Publisher.K8Manager.UpdateReplicaCount` | src/console_op/k8s.go:142-188 | replica count after each outcome, including a change applied despite an error; the pod count in memory changes exactly when the count was already right or the update succeeded |
| `Publisher.K8Manager.UpdateNodesPerPod` | src/console_op/k8s.go:194-250 | if the file opens, the directory existing or created, the counter is zeroed, both targets are stored and each line is written by its own write; otherwise file and targets stay and the error is counted or panics |
| `Publisher.FloatUpdateIsExact` | src/console_op/nodes.go:293-348 | a whole update in floating point equals the update in exact integers, for counts below 2^53 and any machine integers as maxima |
| `Publisher.K8Manager.ChoosePods` | src/console_op/nodes.go:312-322 | the larger floating-point pod count of the two classes, and the exact integer count for counts below 2^53 |
| `Publisher.K8Manager.UpdateNodeCounts` | src/console_op/nodes.go:293-348 | one call publishes the floating-point values for all counts, nothing for an empty inventory, and is the exact Update transition for counts below 2^53 |
| `Publisher.K8Manager.PushTargets` | src/console_op/nodes.go:334-347 | the targets are written always after a failed replica read, lowered by one, and otherwise only when they changed |
| `Publisher.K8Manager.DoSetMaxNodesPerPod` | src/console_op/debug.go:128-140 | each maximum pinned from its own number, to 2..750 and 2..2000 |
| `KeyQueue.ChannelConserves` | src/console_op/creds.go:324-329 | what the rounds produced is what was dequeued, then the channel, then what is still to be sent, in order; the channel never exceeds its capacity |
| `KeyQueue.UnackedIsPending` | src/console_op/creds.go:326-346 | a node whose latest dequeue has not been acknowledged since is pending as dequeued |
| `KeyQueue.PendingIsUnacked` | src/console_op/creds.go:326-346 | whatever is pending was dequeued in that form and not acknowledged since |
| `KeyQueue.NoDeploymentIsLost` | src/console_op/creds.go:324-371 | every produced node is under way at its place in the queue, or was dequeued and is pending by name or had its BMC acknowledged after the name's latest dequeue |
| `KeyQueue.BatchKeepsExactly` | src/console_op/creds.go:357-370 | a pending node leaves a batch exactly when scsd answered below 300 with status 204 for its BMC |
| `KeyQueue.PendingWasProduced` | src/console_op/creds.go:328-329 | only nodes a round produced are pending, keyed by their own name |
| `KeyQueue.BatchShrinks` | src/console_op/creds.go:361-367 | a batch removes exactly the acknowledged BMCs from the pending ones |
| `KeyQueue.DrainsWithinDistinctBmcs` | src/console_op/creds.go:331-343 | from any point of any run, while nothing is dequeued and each batch acknowledges a pending BMC, there are at most as many batches as distinct pending BMCs and after that many nothing is pending |
| `KeyDeploy.CollectBmcs` | src/console_op/creds.go:396-405 | the index has one entry per Mountain BMC address of the list |
| `KeyDeploy.CollectTargets` | src/console_op/creds.go:396-409 | the request names every Mountain BMC address once, for any map order |
| `KeyDeploy.BuildIndex` | src/console_op/creds.go:351-356 | the list, preceded by as many zero values, and the inverse index of the pending nodes, for any map order |
| `KeyDeploy.PaddingAddsNoTarget` | src/console_op/creds.go:351-354 | the zero-valued entries at the front of the list add no target |
| `KeyDeploy.DropBmc` | src/console_op/creds.go:364-366 | removes every node listed behind one BMC and no other |
| `KeyDeploy.DropAcked` | src/console_op/creds.go:361-368 | going through the reply removes exactly the nodes of acknowledged BMCs, whatever is repeated or unknown in it |
| `KeyDeploy.DoMountainCredsUpdate` | src/console_op/creds.go:350-371 | one batch is a plain filter of the pending nodes, and its request names the addresses of the pending nodes of class Mountain or Hill and nothing else |
| `KeyDeploy.Consumer.StartSending` | src/console_op/consoleOpMain.go:172-176 | a round that starts sending is one Produce event |
| `KeyDeploy.Consumer.SendOne` | src/console_op/consoleOpMain.go:174 | sending one node is one Send event, possible only below the capacity and losing nothing |
| `KeyDeploy.Consumer.TakeOne` | src/console_op/creds.go:328-329 | taking a node from the channel is one Receive event |
| `KeyDeploy.Consumer.OnTimeout` | src/console_op/creds.go:330-345 | a timeout is one Batch event, or nothing when nothing is pending |
| `HsmJoin.LastN` | src/console_op/nodes.go:272 | the position of the last 'n', or -1 when there is none |
| `HsmJoin.IndexEndpoints` | src/console_op/nodes.go:253-257 | the index gives the last endpoint of each ID |
| `HsmJoin.GetCurrentNodesFromHSM` | src/console_op/nodes.go:227-290 | failed queries give the empty list, a failed Paradise query no reclassification; otherwise the naive join in order, and a crash exactly when a Node component has no 'n' in its ID |
| `HsmJoin.LastEndpointIs` | src/console_op/nodes.go:253-257 | the endpoint found is the last one listed with that ID |
| `HsmJoin.JoinKeepsOrder` | src/console_op/nodes.go:261-281 | the joined records are those of exactly the components that have one, in component order |
| `HsmJoin.JoinedRecord` | src/console_op/nodes.go:261-287 | a joined record comes from a Node component, is named BMC name, 'n', suffix without 'n', and has the last listed address of its BMC |
| `HsmJoin.NodeWithEndpointIsJoined` | src/console_op/nodes.go:261-287 | every Node component whose BMC is a listed endpoint is joined |
| `HsmJoin.SameBmcSameAddress` | src/console_op/nodes.go:271-281 | nodes behind one BMC carry one address |
| `HsmJoin.UniqueIdsGiveUniqueNames` | src/console_op/nodes.go:261-289 | unique component IDs give unique node names |
| `EndToEnd.SentIsProduced` | src/console_op/consoleOpMain.go:172-176 | everything a round sends reaches the queue |
| `EndToEnd.ProducedAreMountain` | src/console_op/consoleOpMain.go:172-176 | only Mountain and Hill nodes are ever queued |
| `EndToEnd.EveryPendingBmcIsRequested` | src/console_op/creds.go:396-409 | in every joint run the next request names the BMC address of every pending node |
| `EndToEnd.CachedMountainIsAccountedFor` | src/console_op/consoleOpMain.go:143-191 | in every joint run each cached name entered in some round and, if Mountain or Hill then, is waiting, in the channel, pending, or has its BMC's key acknowledged |
| `EndToEnd.FineInvariant` | src/console_op/consoleOpMain.go:143-181 | at the granularity of single steps the queue gets exactly what the loop sends, and cached means sent |
| `EndToEnd.InterleavedMountainIsAccountedFor` | src/console_op/consoleOpMain.go:143-191 | under every interleaving of loop, clearData handlers and consumer, a cached name that HSM only ever reports as Mountain or Hill is waiting, in the channel, pending, or has its BMC's key acknowledged |
| `EndToEnd.ParadiseIsCountedNotSent` | src/console_op/nodes.go:267-269 | a Node component on the Paradise list whose BMC is an endpoint is, whatever its class, in the mountain count of the cache its report is committed to, and is not sent for key deployment |
| `EndToEnd.EveryCachedNodeCanBeClaimed` | src/console_op/consoleOpMain.go:150-165 | after a round and a fully successful publication any claims of cached nodes within the published target extend to all cached nodes of the class within it |

## Left out

- HTTP helpers, JSON encoding, routing and request checks: only the codes and results the core branches on are kept.
- Kubernetes client: the stateful set is one replica number.
- Vault login, key generation, ssh-keygen and key files: a readable or unreadable public key is all that remains.
- How console-node pods choose which consoles to claim, and the avoid-own-host purpose of the slack: that code is elsewhere; only capacity is proved.
- Whether scsd names a BMC by xname or by the address it was sent: acknowledgements are matched on the BMC name, as the code does.
- An HSM outage and an empty inventory: the code does not distinguish them, both are the empty report.
- Heartbeat checks, zombie reaping, health and info responses, SLS aliases, charts and build files: they share no state with the parts modelled.
- Sleeps and timeouts: nondeterministic scheduling.
- Partially written lines of the target file: a line is written whole or not at all.
- Publisher.K8Manager.UpdateNodeCounts: converting a floating-point result of 2^63 or more to an integer is left exact; the machine's result is unspecified there, and a map never has that many nodes.
- OperatorLoop.Operator.SendMountains: hands the nodes over in order; blocking on a full channel is modelled in KeyQueue and by KeyDeploy.Consumer.SendOne.
