# node-warden: a verified model

node-warden is a Kubernetes operator that taints nodes whose watched condition matches a policy and
removes the taint once the condition clears. This project models its decision core, its optimistic
taint writes, its reconcile passes with the cleanup finalizer, its watch layer and its status
reporting, and proves what they promise, for all inputs and all runs.

`dafny verify dfyconfig.toml` checks the whole project.

## How it is laid out

| file | content |
|---|---|
| `Domain.dfy` | nodes, conditions, taints, policy specs |
| `Remediation.dfy` | the decision: a per-node specification and the two-loop algorithm that computes it |
| `DecisionLaws.dfy` | conservation, exclusive actions, blast radius, guard monotonicity, order independence |
| `DecisionFields.dfy` | the same decision spelled out in the fields of the policy and the nodes |
| `Requeue.dfy` | the requeue delay is neither early nor late |
| `Convergence.dfy` | deciding again after a partly failed pass; no flapping over runs |
| `Acting.dfy` | the act loop on the store is the edit of the facts that `Convergence.dfy` speaks of |
| `Settling.dfy` | deciding, acting and waking up together end with every taint where the conditions want it |
| `Churn.dfy` | how fast a flapping condition can make the operator flip a taint |
| `TaintList.dfy`, `TaintPatch.dfy` | taint list edits; the read-edit-compare-and-swap retry loop and its linearizability |
| `PatchReplies.dfy` | what a taint write answers and when it succeeds |
| `Observe.dfy`, `Shell.dfy` | facts from nodes; enacting a decision; cleaning up after a deletion |
| `Admission.dfy`, `Fleet.dfy` | the uniqueness check; every policy's passes as one interleaved step machine |
| `OnePass.dfy`, `PassWants.dfy` | one pass of that machine enacts its decision; undisturbed, it leaves the taint where the spec wants it |
| `PassModels.dfy` | the simpler models of a pass in `Convergence.dfy` and `Churn.dfy` are views of that pass |
| `OneStepPerCall.dfy` | the retry loop refines the machine's atomic taint write |
| `NoStrandedTaints.dfy`, `Deletion.dfy` | safety of the machine, and that a deletion can always finish |
| `NonInterference.dfy` | exactly when a policy runs as if it were alone |
| `OneWorker.dfy`, `StaleCleanup.dfy` | as the operator is set up it always does; with any part of that set-up missing it need not |
| `Wakeup.dfy` | which node updates wake which policy, and why the others cannot matter |
| `Sorting.dfy`, `StatusReport.dfy` | the published status and what one pass warns about |
| `WarningRuns.dfy` | status and edge-triggered warnings over runs of passes that read a lagging cache |
| `StoredStatus.dfy` | when the stored status is the computed one, and how a stale read mixes two |

## Modelling choices

- Time and durations are integers of one unit; a zero `lastTransitionTime` is `None`.
- A label selector is a total predicate on labels, or marked as not parseable. A missing selector selects every node.
- Other clients, the network and the caches are parameters: unless its row names a condition, a theorem
  about a call, a pass or a run quantifies over all schedules of foreign writes, refused calls, lost
  replies, crashes, stale node views and stale policy reads.
- The API server is a store of versioned objects. A write that carries an old version is refused.
- A policy's passes are serialised. The policy cache may show any version of a policy, also an older one than
  before, as after a restart. What each theorem asks of it is a condition on the run: that no pass starts on
  a live version with the finalizer that is not held any more (`SoundStarts`), or that the cache lags but does
  not go back (`NeverBack`), from which the former follows (`NoStrandedTaints.ForwardRun`).
- The passes of different policies interleave freely, and the cache may lag for each policy separately.
  `OneWorker.dfy` alone assumes what `SetupWithManager` amounts to: it sets no concurrency
  (`internal/controller/noderemediationpolicy_controller.go:411-424`), so one worker runs one pass at a
  time, and one watch delivers the changes of all policies in order.
- The status patch is a merge patch without a version check: a field is written only where the new status
  differs from the one that was read.
- A policy object is admitted only with a taint, and its taint is immutable, as the schema rules demand.
- Admission checks and stores in one step.
- Go's map iteration order is an arbitrary choice in the loops that range over a map.

## Where the code and its documentation differ

The model follows the code.

- `DESIGN.md:130` says the condition predicate looks at the watched condition only. The predicate passes
  an update when any condition type changed, and also when a timestamp appears or disappears
  (`internal/predicate/condition_changed.go:50-85`); the handler then narrows it down per policy.
- `api/v1alpha1/noderemediationpolicy_types.go:114` describes held nodes as matched nodes. A cleared node
  that is still tainted and has no timestamp is listed too (`internal/remediation/remediation.go:185-189`).
- `internal/remediation/remediation.go:60` says the guard percentage is over selected nodes. It is
  evaluated over the determinate ones (`internal/remediation/remediation.go:125-134`).
- `api/v1alpha1/noderemediationpolicy_types.go:37` and the guard's description speak of how many nodes a
  policy remediates at once. The guard bounds the matched nodes only
  (`DecisionLaws.GuardDoesNotBoundAllTainted`).

## What was found to need a condition

- Policies do not interfere, except through one step: a cleanup pass that reads a deleted policy from a
  lagging cache after its finalizer is gone takes the key off a node of the policy that took it over. A
  policy looks alone if and only if no such step happens (`NonInterference.RunsAlone`), and a step of
  another policy shows if and only if it is one (`NonInterference.OthersAreInvisible`).
- It cannot happen to a key no other policy ever declared (`NonInterference.FreshKeyRunsAlone`), nor at all
  with one worker, one ordered watch and a cache that does not go back, which is how the operator is set up
  while it runs (`OneWorker.OneWorkerRunsAlone`). It does happen with several workers, if the cache lags for
  each policy separately, or if a restarted operator lists an older moment:
  `StaleCleanup.StaleCleanupInterferes` gives a run for each.
- The finalizer bookkeeping holds throughout a run if and only if no pass starts on a live version with the
  finalizer that is not held any more (`NoStrandedTaints.ConsistentRun`); then no taint is stranded
  (`NoStrandedTaints.NoStrandedTaint`). A cache that does not go back satisfies this. A pass that does start
  on such a version strands its taint if nobody holds the key any more and its decision applies it somewhere
  (`NoStrandedTaints.UnheldStartStrands`).
- A pass that reads an old version patches only the fields that differ from it, so the stored status can mix
  two decisions: list a held node, count none and report nothing to remediate (`StoredStatus.StaleReadMixes`).
  A persisted pass leaves exactly what it computed if and only if nothing it left alone has moved since it
  read (`StoredStatus.StoresWhatItComputed`). A pass that reads the stored version always does, and then the
  status stays right while passes compute the same one (`StoredStatus.StaysHealed`).
- A warning is repeated by a pass that read the policy before the record of the first one, and, once the
  record is stored and until another reason replaces it, by no other, provided no version between the first
  pass's read and its record had the reason or the node already (`WarningRuns.GuardRepeatsExactly`,
  `WarningRuns.HeldRepeatsExactly`).
- A dropped timestamp bump is harmless to the selected nodes until the outstanding requeue exactly when no
  waiting node became due before it, and harmless altogether exactly when besides no unselected node gained
  the key (`Wakeup.HarmlessExactly`). Timestamps that only move forward satisfy the former.
- The watch looks at the last condition of a type and the decision at the first. They agree exactly when
  these two are in the same state (`Wakeup.WatchSeesTheFact`); otherwise a change of the first goes
  unnoticed exactly when a later one follows it (`Wakeup.FirstConditionNoticed`).
- A policy's key on a node it does not select wakes nobody: the removals owed to unselected nodes change
  unnoticed exactly when the key's presence on an unselected node did (`Wakeup.UnselectedKeyUnnoticed`).

## Model

| member | source | states |
|---|---|---|
| `Remediation.Decide` | internal/remediation/remediation.go:92-202 | the two loops list exactly the groups of the per-node specification, in node order, with the guard and the least remaining wait |
| `DecisionFields.DecisionInFields` | internal/remediation/remediation.go:92-215 | in the fields of the policy and the facts: every list collects exactly its nodes, in node order; the guard trips exactly when matched * 100 exceeds percent * determinate; the requeue is the shortest remaining wait, 0 if none waits |
| `DecisionFields.ReportsAreJustified` | internal/remediation/remediation.go:103-198 | with distinct names, a node is reported selected, matched, pending, unknown, remediated or held exactly when its observed selection, status, timestamp and taint say so; a cleared, tainted, undated node is held |
| `Remediation.SelectNodes` | internal/remediation/remediation.go:103-129 | the first loop selects the in-scope nodes in order with their match, collects the scoped-out tainted ones, and its counters are the sizes of the matched and determinate groups |
| `Remediation.SelectedSuffices` | internal/remediation/remediation.go:128-140 | looping over the selection instead of all nodes lists the same names for every group inside the scope |
| `Remediation.MinPositive` | internal/remediation/remediation.go:207-215 | a running minimum over positive candidates: never cancelled by a non-positive one, 0 only if there was none |
| `DecisionLaws.Conservation` | internal/remediation/remediation.go:103-198 | selected nodes are exactly matched plus unknown plus cleared, matched ones exactly pending plus what the held list and the remediated list share with them, and the guard's denominator is selected minus unknown |
| `DecisionLaws.ListsAreExact` | internal/remediation/remediation.go:103-198 | a name is on any of the eight lists of the decision if and only if the node of that name is in the list's group, so no list carries a stray or misses a node |
| `DecisionLaws.ActionsAreJustified` | internal/remediation/remediation.go:107-197 | a node is applied or removed exactly when its observed selection, taint, status, timestamp and the guard demand it; without a determinate, dated signal a selected node is left alone |
| `DecisionLaws.ActionsAreExclusive` | internal/remediation/remediation.go:154-197 | applies are pending and untainted, removes are tainted, a name occurs at most once on both action lists together, and a held node is neither acted on nor unknown |
| `DecisionLaws.BlastRadius` | internal/remediation/remediation.go:116-137 | if anything is applied, matched nodes tainted before plus newly applied are at most floor(percent * determinate / 100); what else may carry the taint is counted separately |
| `DecisionLaws.GuardDoesNotBoundAllTainted` | internal/remediation/remediation.go:125-134 | a cluster in which a pass leaves more tainted nodes than the percentage of selected ones |
| `DecisionLaws.GuardOnlyBlocksApplies` | internal/remediation/remediation.go:169-171 | a tripped guard empties the applies; removes, holds and all status lists are those of the same policy with the guard off |
| `DecisionLaws.GuardExtremes` | internal/remediation/remediation.go:131-134 | 100 percent never trips, 0 percent trips if and only if some selected node matches |
| `DecisionLaws.GuardMonotone` | internal/remediation/remediation.go:116-134 | adding a silent or unselected node anywhere changes nothing, a matched one never untrips, a cleared one never trips |
| `DecisionLaws.OrderIndependence` | internal/remediation/remediation.go:107-201 | permuting the nodes permutes every list and changes no count, guard or requeue |
| `DecisionLaws.LeastWaitIsLeast` | internal/remediation/remediation.go:175-194 | the requeue is the smallest remaining wait of a waiting node and 0 exactly when none waits |
| `Requeue.StableUntilRequeue` | internal/remediation/remediation.go:138-201 | with unchanged facts the whole decision is constant until the requeue, forever if it is 0, and the requeue just counts down |
| `Requeue.FiresAtRequeue` | internal/remediation/remediation.go:172-194 | at the requeue a node that was waiting becomes actionable, and strictly fewer are left waiting |
| `Requeue.Wakeups` | internal/controller/noderemediationpolicy_controller.go:230 | the chain of timed requeues is finite, at most one longer than the number of waiting nodes |
| `Requeue.WakeupsSuffice` | internal/controller/noderemediationpolicy_controller.go:230 | at every later time the decision is the one taken at the latest wake-up of that chain |
| `Convergence.Residual` | internal/controller/noderemediationpolicy_controller.go:163-191 | deciding again after any part of a decision was enacted gives exactly the rest, in order, with the same selection, matches, holds, guard and requeue |
| `Acting.ActIsEnact` | internal/controller/noderemediationpolicy_controller.go:163-191 | the act loop on the store is that edit of the facts, whatever view it decided on: the nodes whose write took effect, lost replies included, are all the listed ones except some reported failed, while other clients leave the key as it is |
| `Acting.NextDecision` | internal/controller/noderemediationpolicy_controller.go:163-230 | after a pass that decided on a current view, and while other clients leave it as it is which nodes carry the key, the next look at the store decides exactly the writes that did not take effect, each of them reported failed; after a pass without failures nothing is left |
| `Convergence.Converges` | internal/controller/noderemediationpolicy_controller.go:163-191 | after full success nothing is left to do and the applied nodes are reported remediated |
| `Convergence.NoFlapping` | internal/remediation/remediation.go:107-197 | with fixed labels and conditions, and the operator as the only writer of its key, a node's taint never returns to a value it left, for any clocks, stale taint views and failed writes |
| `Settling.Chain` | internal/remediation/remediation.go:172-194 | with fixed labels and conditions, current views and successful writes, the chain of passes that act and are woken for the next due node has at most one more pass than nodes wait at its start |
| `Settling.QuietBetweenPasses` | internal/controller/noderemediationpolicy_controller.go:163-230 | on such a chain nothing is due on the facts a pass left until the next pass, nor at any time after the last |
| `Settling.Settles` | internal/remediation/remediation.go:103-197 | such a chain leaves the taint exactly on the nodes destined for it: in scope and matched with it or dated past the guard, silent with it, or cleared with it and undated |
| `Acting.AppliedIsReported` | internal/controller/noderemediationpolicy_controller.go:163-198 | whatever view the pass decided on, while other clients leave it as it is which nodes carry the key, a node whose apply did not fail is reported as remediated by a decision that looks at the store afterwards |
| `Churn.BoundedChurn` | internal/remediation/remediation.go:151-197 | however the condition flaps and whatever taint bits the passes see, measured at the writes: an apply and the next remove are more than exit apart, a remove and the next apply more than enter, each less the observation lag and the write delay, and k+1 flips span floor(k/2) full windows, less the lags and one write delay |
| `TaintList.EnsureMutation` | internal/controller/taint.go:45-56 | appends the very taint, key, value and effect, unless its key is present |
| `TaintList.RemoveMutation` | internal/controller/taint.go:69-80 | drops every taint with the key, keeps the others in order, and reports no change exactly when the key is absent |
| `TaintList.MutateEffect` | internal/controller/taint.go:45-80 | an edit decides the presence of its own key only, appends exactly the given taint or drops exactly the key, keeps every other taint in place, and is idempotent |
| `TaintList.OthersConcat` | internal/controller/taint.go:69-80 | taking a key out goes taint by taint, in order and with repetitions |
| `TaintPatch.ApiServer.PatchTaintList` | internal/controller/taint.go:100-121 | the retry loop ends in at most five attempts with the store and reply of its functional description, for every schedule of foreign writes and faults |
| `PatchReplies.AttemptReply` | internal/controller/taint.go:100-121 | exactly when one attempt is unavailable, finds no node, is beaten, has nothing to do, or changes the node |
| `PatchReplies.AttemptStore` | internal/controller/taint.go:100-121 | one attempt leaves its edit of the list it read exactly if its patch reached the unchanged node, and else nothing of its own |
| `PatchReplies.CallReply` | internal/controller/taint.go:100-121 | a call answers as its last attempt; every earlier one was beaten by a writer and followed by another, and it stops at the first that was not or when none is left |
| `PatchReplies.UnavailableOnlyByFault` | internal/controller/taint.go:114-118 | a call reports an unavailable server only if a fault hit its last attempt |
| `PatchReplies.CalmAttemptEnds` | internal/controller/taint.go:101-120 | as soon as an attempt meets no fault and no rival writer on a node that is there, the call ends with success, and changed says whether the list it read needed the edit |
| `PatchReplies.FiveAttempts` | internal/controller/taint.go:40-42 | a call that gives up on conflicts has made five attempts, each beaten by a write to this node |
| `PatchReplies.WritesTheTaint` | internal/controller/taint.go:45-80 | a call that changed the node leaves the list of just before with exactly the given taint appended, or exactly the key dropped |
| `TaintPatch.Linearizable` | internal/controller/taint.go:42-121 | a call without error is one atomic edit of the list current when it ends, and changed is that edit's answer; a conflict or missing node wrote nothing; any other error wrote nothing or that one edit |
| `TaintPatch.SameVersionSameNode` | internal/controller/taint.go:111-113 | an unchanged resource version means an unchanged node, even across deletion and re-creation |
| `TaintPatch.NoLostUpdate` | internal/controller/taint.go:90-99 | against what foreign writes alone would leave, a call changes only its own key on its own node; foreign taints keep content and order |
| `TaintPatch.ExhaustedOnlyByWriters` | internal/controller/taint.go:40-42 | giving up on conflicts takes all attempts, each beaten by another client's write to this node between the read and the patch |
| `Observe.ObserveNodes` | internal/controller/noderemediationpolicy_controller.go:334-358 | one fact per node, in order, with the first condition of the watched type and the presence of the policy's key |
| `Observe.HasTaintKey` | internal/controller/noderemediationpolicy_controller.go:361-368 | true if and only if some taint has the key |
| `Shell.Act` | internal/controller/noderemediationpolicy_controller.go:163-191 | applies then removes, one call per listed node, collecting changes and failures without stopping |
| `Shell.EveryNodeAttempted` | internal/controller/noderemediationpolicy_controller.go:163-191 | a node is reported failed, or changed, if and only if its own call was |
| `Shell.CleanupTaints` | internal/controller/noderemediationpolicy_controller.go:239-274 | no taint is a no-op, a failed listing an error, otherwise the key is removed from every listed carrier and an error returned iff some call failed |
| `Shell.CleanupIsComplete` | internal/controller/noderemediationpolicy_controller.go:233-274 | a cleanup without error leaves no node with the key, though nodes come and go while it runs |
| `Admission.ValidateUniqueTaintKey` | internal/webhook/v1alpha1/noderemediationpolicy_webhook.go:76-105 | admits exactly when no other stored policy declares the key, names the colliding one otherwise, and reports a failed listing |
| `NoStrandedTaints.UpdateTakesEffect` | internal/webhook/v1alpha1/noderemediationpolicy_webhook.go:43-48 | while keys are unique, an update of a stored policy takes effect exactly if it keeps the taint |
| `NoStrandedTaints.ConsistentRun` | internal/controller/noderemediationpolicy_controller.go:97-119 | stored policies never share a key and a pass that acts on a decision does so under its own stored finalizer, throughout a run, if and only if no pass of it starts on a live version with the finalizer that is not held any more |
| `NoStrandedTaints.GuardedRelease` | internal/controller/noderemediationpolicy_controller.go:106-119 | committing the removal of the finalizer leaves every carrier of the key with a stored owner |
| `OnePass.PassBegins` | internal/controller/noderemediationpolicy_controller.go:92-106 | from an idle state in which the cache shows the stored live policy, a pass stores the finalizer if it is missing and comes to decide on the stored spec |
| `OnePass.PassEnacts` | internal/controller/noderemediationpolicy_controller.go:161-191 | whatever is refused and whatever reply is lost, a pass gives every applied and then every removed node its own write and goes idle; a node carries the key exactly if an apply reached it or it carried it, and no remove reached it; nothing else changes |
| `PassWants.PassIsEnact` | internal/controller/noderemediationpolicy_controller.go:161-191 | the next look at the nodes after a pass shows the facts of before, edited on the nodes it reached |
| `PassWants.PassTaintsExactly` | internal/controller/noderemediationpolicy_controller.go:154-191 | an undisturbed pass on the stored nodes leaves the key exactly where the spec wants it, in terms of labels, the first watched condition, the clock and the guard's two counts of nodes, and a new taint is the spec's |
| `PassModels.PassIsAfterPass` | internal/controller/noderemediationpolicy_controller.go:154-191 | a pass of the machine that decides on an old view of the taints is the pass that `Convergence.NoFlapping` iterates, whatever is refused or lost |
| `PassModels.PassIsTaintAfter` | internal/controller/noderemediationpolicy_controller.go:154-191 | and for one node it is the pass that `Churn.BoundedChurn` follows |
| `NoStrandedTaints.ConsistentStep` | internal/controller/noderemediationpolicy_controller.go:91-106 | a single step keeps that bookkeeping if and only if it is not such a start |
| `NoStrandedTaints.ForwardRun` | internal/controller/noderemediationpolicy_controller.go:92-95 | a cache that lags, however far, but does not go back makes no such start |
| `NoStrandedTaints.StepKeeps` | internal/controller/noderemediationpolicy_controller.go:91-231 | every single step of any policy, user, node or client keeps the invariant, unless it is such a start or another client gives the key to a node that lacks it |
| `NoStrandedTaints.NoStrandedTaint` | internal/controller/noderemediationpolicy_controller.go:97-119 | after any run from a cluster without policies, without such starts and without other clients spreading the key, a node that carries the key has that key's policy stored with its finalizer |
| `NoStrandedTaints.LaggingStrandsNothing` | internal/controller/noderemediationpolicy_controller.go:92-119 | the same for every run in which the cache lags but does not go back |
| `NoStrandedTaints.UnheldStartStrands` | internal/controller/noderemediationpolicy_controller.go:92-119 | any pass that starts on a live version while nobody holds its key any more, and whose decision applies the taint to an existing node, strands it there in three steps |
| `NoStrandedTaints.RewoundCacheStrands` | internal/controller/noderemediationpolicy_controller.go:92-95 | such a start happens when the cache goes back to a version before the deletion |
| `Deletion.DeletionCompletes` | internal/controller/noderemediationpolicy_controller.go:106-119 | from an idle state the deleted policy's own undisturbed steps remove its key everywhere and let the object go |
| `Deletion.CleanupReleasesExactly` | internal/controller/noderemediationpolicy_controller.go:255-274 | a cleanup goes on to release the finalizer exactly if every call was acknowledged on a node that is there; otherwise the pass ends and is retried |
| `OneStepPerCall.CallRefinesStep` | internal/controller/taint.go:100-121 | a call of the retry loop has the net effect of one atomic write step, acknowledged exactly when it succeeds |
| `NonInterference.RunsAlone` | internal/webhook/v1alpha1/noderemediationpolicy_webhook.go:43-48 | while a policy is stored, its own release included, any run of all policies seen through it and its key is the run of that policy alone at every point, if and only if no step strips its key; the versions the policy can still read declare the key, the cache does not go back for it, and no pass starts on a live version that is not held any more |
| `NonInterference.FreshKeyRunsAlone` | internal/webhook/v1alpha1/noderemediationpolicy_webhook.go:76-105 | under the same conditions, a key that no version of any other policy ever declared is never stripped, so its policy runs alone |
| `OneWorker.NothingStrips` | internal/controller/noderemediationpolicy_controller.go:411-424 | after any run from a cluster without policies in which other clients do not spread the key, with one pass at a time and an in-order cache that does not go back, no step of anyone strips a stored policy's key |
| `OneWorker.OneWorkerRunsAlone` | internal/controller/noderemediationpolicy_controller.go:411-424 | with one worker, one ordered watch and a cache that does not go back, every stored policy whose still readable versions declare its key runs alone in every run in which other clients do not spread that key |
| `NonInterference.OthersAreInvisible` | internal/controller/noderemediationpolicy_controller.go:168-191 | a step of another policy changes anything visible through a stored policy and its key if and only if it is a cleanup of a superseded deletion that takes the key off a node carrying it |
| `NonInterference.SameFacts` | internal/controller/noderemediationpolicy_controller.go:334-358 | what a policy observes depends only on labels, conditions and the taints of its own key |
| `StaleCleanup.StaleCleanupInterferes` | internal/controller/noderemediationpolicy_controller.go:105-119 | with several workers, with separately lagging caches, or with a restarted operator that lists an older moment, and everything else as set up, a run from an empty cluster after which a late cleanup strips the taint of the key's present owner |
| `Wakeup.ChangedConditionTypes` | internal/predicate/condition_changed.go:50-65 | exactly the types whose status or timestamp presence differs, the last condition of a type counting |
| `Wakeup.ConditionStateByType` | internal/predicate/condition_changed.go:76-85 | the index reads back the last condition of each type and the zero state for an absent one |
| `Wakeup.ChangedTaintKeys` | internal/predicate/taints_changed.go:45-60 | exactly the keys present on one side only |
| `Wakeup.EnqueuePolicies` | internal/controller/noderemediationpolicy_controller.go:443-497 | enqueues exactly the policies the update concerns, each once, none when the listing fails |
| `Wakeup.WakesExactly` | internal/controller/noderemediationpolicy_controller.go:443-468 | an update wakes a policy exactly if it selects the node before or after and the labels, its condition type's last state or its own key's presence changed |
| `Wakeup.WatchPasses` | internal/controller/noderemediationpolicy_controller.go:414-421 | lets through exactly the updates that change labels, a condition or a taint key |
| `Wakeup.DroppedExactly` | internal/controller/noderemediationpolicy_controller.go:414-421 | what the watch drops is exactly the updates that leave labels, the last state of every condition type and every taint key's presence as they are |
| `Wakeup.WatchPassesEveryWake` | internal/controller/noderemediationpolicy_controller.go:414-469 | the watch never drops an update the handler would have enqueued |
| `Wakeup.WatchSeesTheFact` | internal/predicate/condition_changed.go:67-85 | what the watch compares is what the core observes if and only if the first and the last condition of the type are in the same state |
| `Wakeup.WakeupComplete` | internal/controller/noderemediationpolicy_controller.go:426-469 | after any number of updates that concern the policy in no way the handler tests, status and held list are at every time what the last pass saw, provided the first and last condition of the watched type agree on selected nodes; an update dropped because the policy listing failed is not such an update |
| `Wakeup.UnselectedNodeUnreported` | internal/controller/noderemediationpolicy_controller.go:474-481 | a node that appears or disappears unselected changes neither status nor held list |
| `Wakeup.UnselectedKeyUnnoticed` | internal/controller/noderemediationpolicy_controller.go:460-462 | for any nodes and any update that wakes nobody, the removals owed to unselected nodes stay the same if and only if the node is selected or the key's presence did not change |
| `Wakeup.FirstConditionNoticed` | internal/predicate/condition_changed.go:76-85 | a new state of the condition the core reads wakes the policy if and only if the node is selected and no later condition of the type hides it |
| `Wakeup.HarmlessExactly` | internal/predicate/condition_changed.go:45-49 | dropped updates cause no action on a selected node that was due before the requeue if and only if no waiting node became due before it, and no action at all if and only if besides no unselected node gained the key |
| `Wakeup.DroppedBumpsNeverLate` | internal/predicate/condition_changed.go:67-85 | over any run of dropped updates that move timestamps only forward, every action on a selected node due before the requeue was already chosen, and every action at all if no unselected node gained the key |
| `Sorting.AscendingUnique` | internal/controller/noderemediationpolicy_controller.go:373-380 | ascending lists of the same names are equal element by element |
| `Sorting.LeqIsLexicographic` | internal/controller/noderemediationpolicy_controller.go:375-380 | the order is lexicographic: a prefix comes first, otherwise the smaller character at the first difference |
| `StatusReport.PolicyObject.WriteStatus` | internal/controller/noderemediationpolicy_controller.go:372-408 | each published list is its own decision list in ascending order, each count its length, and the one condition follows the order guard, remediated, pending, held or unknown, none |
| `StatusReport.ReportsExactly` | internal/controller/noderemediationpolicy_controller.go:372-408 | those lists, counts, reason and message leave exactly one status for a decision |
| `StatusReport.RemediatingIsExact` | api/v1alpha1/noderemediationpolicy_status.go:41-91 | the condition a pass computes is true if and only if the guard is not tripped and some selected node carries the taint, and it is stamped with the generation |
| `StatusReport.PolicyObject.ReportDecision` | internal/controller/noderemediationpolicy_controller.go:193-223 | status and warnings of a pass, the warnings judged against the status before it |
| `StatusReport.PolicyObject.RejectSpec` | internal/controller/noderemediationpolicy_controller.go:139-153 | only the condition changes, to false with reason InvalidSpec and the error, and an event is recorded exactly when the status changed |
| `StatusReport.PublishedOrderIndependent` | internal/controller/noderemediationpolicy_controller.go:372-408 | listing the nodes in another order makes a pass compute the very same status and warnings |
| `StatusReport.ReasonIsExact` | internal/controller/noderemediationpolicy_controller.go:394-407 | a pass computes no-remediation if and only if every selected node is determinately cleared and untainted |
| `StatusReport.HeldCountsNodes` | internal/controller/noderemediationpolicy_controller.go:401-404 | the count given with the held reason is a number of distinct nodes |
| `StatusReport.WarningsMember` | internal/controller/noderemediationpolicy_controller.go:204-223 | when exactly a pass warns about the guard and about an undated node |
| `StatusReport.WarningsCount` | internal/controller/noderemediationpolicy_controller.go:204-223 | the guard warning comes at most once and first, then one warning per occurrence of a newly held name, and nothing else |
| `WarningRuns.Finish` | internal/controller/noderemediationpolicy_controller.go:139-223 | how a pass ends on the copy of the policy it read is the status and the events of the run model |
| `WarningRuns.GuardWarnsOnEdges` | internal/controller/noderemediationpolicy_controller.go:92-213 | between two guard warnings some pass stored another reason, unless the patch recording the first was lost or the second pass read an older version |
| `WarningRuns.GuardRepeatsExactly` | internal/controller/noderemediationpolicy_controller.go:122-213 | after a recorded guard warning, while no other reason is stored, and if no version from the one the first pass read up to its record had the reason, a tripped pass warns again if and only if it read a version older than the record |
| `WarningRuns.HeldWarnsOnEdges` | internal/controller/noderemediationpolicy_controller.go:92-223 | between two warnings about one node some pass decided and stored a held list without it, unless the first record was lost or the second pass read an older version |
| `WarningRuns.HeldRepeatsExactly` | internal/controller/noderemediationpolicy_controller.go:122-223 | after a recorded warning about a node, while every stored held list has it, and if no version from the one the first pass read up to its record listed it, a pass that holds it warns again if and only if it read a version older than the record |
| `WarningRuns.OnlyDecisionsTouchLists` | internal/controller/noderemediationpolicy_controller.go:121-153 | over any passes that could not use the spec or aborted, however stale the versions they read, every stored list and count stays what the last decision left |
| `StoredStatus.StoresWhatItComputed` | internal/controller/noderemediationpolicy_controller.go:121-135 | a persisted pass leaves exactly the status it computed if and only if every field it left as it read it is still stored that way |
| `StoredStatus.StaysHealed` | internal/controller/noderemediationpolicy_controller.go:121-135 | after a persisted pass that read the stored version, while later passes compute the same status, exactly that status stays stored, however old the versions they read and whether or not their patches go through |
| `StoredStatus.StaleReadMixes` | internal/controller/noderemediationpolicy_controller.go:92-135 | a run of three decisions on two nodes after which the store lists a held node, counts none and reports nothing to remediate |

## Left out

- Wiring: `main`, leader election, metrics, TLS, manifests, scheme registration.
- Client and controller libraries: the work queue, back-off delays, event transport and patch encoding; a
  write is a success, a conflict, a missing object or another error.
- Label selector parsing, duration parsing and the schema's regular expressions.
- Defaulting getters, deep copies, log and event texts beyond what identifies them; the node-side copies of the taint events.
- The condition's own transition time, which the library maintains.
- The webhook's check-then-store race, which the code declares it cannot close.
- Integer widths: node counts are unbounded, so the 32-bit status counts and the 64-bit guard product do
  not wrap, and time differences do not saturate.
- Aliasing of Go slices: `append` on a node's taint list is modelled on values.
- Other finalizers on a policy object: removing this one lets the object go at once.
- Wakeup.WakeupComplete: does not cover updates that were dropped because the handler's listing of the policies failed; such an update is logged and lost until the next wake-up.
- NonInterference.RunsAlone: speaks of a policy all of whose versions that it can still read declare the key; a name that was used before with another key qualifies once the cache has seen the new object.
- Fleet.Step: a pass may plan on any node view at all, which covers every stale cache and more.
- Shell.CleanupIsComplete: asks of other clients that they do not give the key to a node that lacks it, as the operator is the key's only writer.
- TaintPatch.Linearizable: a write whose reply is lost is committed before the call goes on; one that the server commits only after the caller has given up or crashed is not modelled, so a late apply that lands behind a cleanup is not excluded.
- NoStrandedTaints.NoStrandedTaint: asks the same of other clients, and that nobody else takes the finalizer off a policy.
