/**
 Status and warnings over runs of passes. A pass reads the policy from a cache that may lag, judges its
 warnings against that version, and patches only the status fields in which its result differs from it.
 */
module WarningRuns {
  import opened Domain
  import opened Remediation
  import opened Sorting
  import opened StatusReport

  /** How a pass ended: with a decision, with a spec it could not use, or before it could publish anything. */
  datatype Outcome = Decided(d: Decision) | Unusable(error: string) | Aborted

  /**
   One pass. The version it reads is the status that was stored before pass `seen`; `persisted` says
   whether its status patch went through.
   */
  datatype Pass = Pass(outcome: Outcome, generation: int, seen: nat, persisted: bool)

  /** No pass reads the future, and the cache does not go back. */
  predicate CachedReads(passes: seq<Pass>)
  {
    && (forall k :: 0 <= k < |passes| ==> passes[k].seen <= k)
    && (forall i, k :: 0 <= i < k < |passes| ==> passes[i].seen <= passes[k].seen)
  }

  /** The status a pass computes from the version it read. */
  function Publishes(read: Published, pass: Pass): Published
  {
    match pass.outcome
    case Decided(d) => StatusOf(d, pass.generation)
    case Unusable(error) => Rejected(read, error, pass.generation)
    case Aborted => read
  }

  function Emits(read: Published, pass: Pass): seq<Event>
  {
    match pass.outcome
    case Decided(d) => Warnings(read, d)
    case Unusable(_) => if Publishes(read, pass) != read then [SpecRejected] else []
    case Aborted => []
  }

  /** How a pass ends on the copy of the policy it read: the status it leaves there and the events it records. */
  method Finish(policy: PolicyObject, pass: Pass) returns (events: seq<Event>)
    requires pass.generation == policy.generation
    modifies policy
    ensures policy.status == Publishes(old(policy.status), pass)
    ensures events == Emits(old(policy.status), pass)
  {
    match pass.outcome {
      case Decided(d) => events := policy.ReportDecision(d);
      case Unusable(error) => events := policy.RejectSpec(error);
      case Aborted => events := [];
    }
  }

  function Patched<T(==)>(stored: T, read: T, result: T): T
  {
    if result == read then stored else result
  }

  /** A merge patch: each field is replaced only if the result differs there from what was read. */
  function Merged(stored: Published, read: Published, result: Published): Published
  {
    Published(
      Patched(stored.selectedNodes, read.selectedNodes, result.selectedNodes),
      Patched(stored.matchedNodes, read.matchedNodes, result.matchedNodes),
      Patched(stored.pendingNodes, read.pendingNodes, result.pendingNodes),
      Patched(stored.unknownNodes, read.unknownNodes, result.unknownNodes),
      Patched(stored.heldNodes, read.heldNodes, result.heldNodes),
      Patched(stored.remediatedNodes, read.remediatedNodes, result.remediatedNodes),
      Patched(stored.selectedCount, read.selectedCount, result.selectedCount),
      Patched(stored.matchedCount, read.matchedCount, result.matchedCount),
      Patched(stored.pendingCount, read.pendingCount, result.pendingCount),
      Patched(stored.remediatedCount, read.remediatedCount, result.remediatedCount),
      Patched(stored.unknownCount, read.unknownCount, result.unknownCount),
      Patched(stored.heldCount, read.heldCount, result.heldCount),
      Patched(stored.condition, read.condition, result.condition))
  }

  /** The stored status before pass `k`. */
  function Stored(initial: Published, passes: seq<Pass>, k: nat): Published
    requires CachedReads(passes) && k <= |passes|
  {
    if k == 0 then initial
    else
      var pass := passes[k - 1];
      var before := Stored(initial, passes, k - 1);
      var read := Stored(initial, passes, pass.seen);
      if pass.persisted then Merged(before, read, Publishes(read, pass)) else before
  }

  /** The version pass `k` reads. */
  function ReadBy(initial: Published, passes: seq<Pass>, k: nat): Published
    requires CachedReads(passes) && k < |passes|
  {
    Stored(initial, passes, passes[k].seen)
  }

  predicate EmittedAt(initial: Published, passes: seq<Pass>, k: nat, e: Event)
    requires CachedReads(passes) && k < |passes|
  {
    e in Emits(ReadBy(initial, passes, k), passes[k])
  }

  /** What pass `k` patches the condition to, if it patches it at all. */
  predicate Stores(initial: Published, passes: seq<Pass>, k: nat, condition: Option<Condition>)
    requires CachedReads(passes) && k < |passes|
  {
    var read := ReadBy(initial, passes, k);
    passes[k].persisted && Publishes(read, passes[k]).condition == condition && condition != read.condition
  }

  predicate StoresHeld(initial: Published, passes: seq<Pass>, k: nat, held: seq<string>)
    requires CachedReads(passes) && k < |passes|
  {
    var read := ReadBy(initial, passes, k);
    passes[k].persisted && Publishes(read, passes[k]).heldNodes == held && held != read.heldNodes
  }

  /** One pass leaves the stored condition and held list alone or replaces them by its own. */
  lemma OnePass(initial: Published, passes: seq<Pass>, k: nat)
    requires CachedReads(passes) && k < |passes|
    ensures
      var before, after := Stored(initial, passes, k), Stored(initial, passes, k + 1);
      && (Stores(initial, passes, k, after.condition) || after.condition == before.condition)
      && (StoresHeld(initial, passes, k, after.heldNodes) || after.heldNodes == before.heldNodes)
      && (forall c :: Stores(initial, passes, k, c) ==> after.condition == c)
      && (forall h :: StoresHeld(initial, passes, k, h) ==> after.heldNodes == h)
      && (!passes[k].persisted ==> after == before)
  {
  }

  // ----- the guard warning

  predicate Reports(condition: Option<Condition>, reason: Reason)
  {
    condition.Some? && condition.value.reason == reason
  }

  lemma GuardEmission(read: Published, pass: Pass)
    requires GuardWarning in Emits(read, pass)
    ensures !HasReason(read, GuardTripped) && HasReason(Publishes(read, pass), GuardTripped)
  {
    WarningsMember(read, pass.outcome.d, "");
  }

  lemma GuardStored(initial: Published, passes: seq<Pass>, i: nat)
    requires CachedReads(passes) && i < |passes| && passes[i].persisted && EmittedAt(initial, passes, i, GuardWarning)
    ensures HasReason(Stored(initial, passes, i + 1), GuardTripped)
  {
    GuardEmission(ReadBy(initial, passes, i), passes[i]);
    OnePass(initial, passes, i);
    assert Stores(initial, passes, i, Publishes(ReadBy(initial, passes, i), passes[i]).condition);
  }

  lemma GuardUnseen(initial: Published, passes: seq<Pass>, j: nat)
    requires CachedReads(passes) && j < |passes| && EmittedAt(initial, passes, j, GuardWarning)
    ensures !HasReason(Stored(initial, passes, passes[j].seen), GuardTripped)
  {
    GuardEmission(ReadBy(initial, passes, j), passes[j]);
  }

  /** If the stored reason was lost, some pass in between stored another one. */
  lemma {:induction false} ReasonLost(initial: Published, passes: seq<Pass>, i: nat, j: nat, reason: Reason)
    returns (k: nat, c: Option<Condition>)
    requires CachedReads(passes) && i <= j <= |passes|
    requires HasReason(Stored(initial, passes, i), reason) && !HasReason(Stored(initial, passes, j), reason)
    ensures i <= k < j && Stores(initial, passes, k, c) && !Reports(c, reason)
    decreases j - i
  {
    if HasReason(Stored(initial, passes, j - 1), reason) {
      k, c := j - 1, Stored(initial, passes, j).condition;
      OnePass(initial, passes, j - 1);
    } else {
      k, c := ReasonLost(initial, passes, i, j - 1, reason);
    }
  }

  lemma GuardReplaced(initial: Published, passes: seq<Pass>, i: nat, j: nat) returns (k: nat, c: Option<Condition>)
    requires CachedReads(passes) && i < j <= |passes|
    requires HasReason(Stored(initial, passes, i + 1), GuardTripped)
    requires !HasReason(Stored(initial, passes, j), GuardTripped)
    ensures i < k < j && Stores(initial, passes, k, c) && !Reports(c, GuardTripped)
  {
    k, c := ReasonLost(initial, passes, i + 1, j, GuardTripped);
  }

  /**
   Two guard warnings of one policy: the patch recording the first was lost, or the second pass still
   read a version older than it, or some pass in between stored another reason.
   */
  lemma GuardWarnsOnEdges(initial: Published, passes: seq<Pass>, i: nat, j: nat)
    returns (k: nat, c: Option<Condition>)
    requires CachedReads(passes) && i < j < |passes|
    requires EmittedAt(initial, passes, i, GuardWarning) && EmittedAt(initial, passes, j, GuardWarning)
    ensures
      || !passes[i].persisted
      || passes[j].seen <= i
      || (i < k < passes[j].seen && Stores(initial, passes, k, c) && !Reports(c, GuardTripped))
  {
    k, c := 0, None;
    var read := passes[j].seen;
    assert read <= j;
    if passes[i].persisted && i < read {
      GuardStored(initial, passes, i);
      GuardUnseen(initial, passes, j);
      k, c := GuardReplaced(initial, passes, i, read);
    }
  }

  /** No pass strictly between `i` and `j` stores a reason other than the guard's. */
  ghost predicate GuardKept(initial: Published, passes: seq<Pass>, i: nat, j: nat)
    requires CachedReads(passes) && i < j <= |passes|
  {
    forall k, c :: i < k < j && Stores(initial, passes, k, c) ==> Reports(c, GuardTripped)
  }

  /**
   Exactly when a guard warning is repeated: after pass `i` warned and recorded it, while no other reason
   is stored, a later tripped pass warns again if and only if it reads a version older than that record.
   */
  lemma GuardRepeatsExactly(initial: Published, passes: seq<Pass>, i: nat, j: nat)
    requires CachedReads(passes) && i < j < |passes|
    requires EmittedAt(initial, passes, i, GuardWarning) && passes[i].persisted
    requires forall m :: passes[i].seen <= m <= i ==> !HasReason(Stored(initial, passes, m), GuardTripped)
    requires GuardKept(initial, passes, i, j)
    requires passes[j].outcome.Decided? && passes[j].outcome.d.status.guardTripped
    ensures EmittedAt(initial, passes, j, GuardWarning) <==> passes[j].seen <= i
  {
    WarningsMember(ReadBy(initial, passes, j), passes[j].outcome.d, "");
    if i < passes[j].seen && EmittedAt(initial, passes, j, GuardWarning) {
      var k, c := GuardWarnsOnEdges(initial, passes, i, j);
    }
  }

  // ----- the missing-timestamp warning

  lemma HeldEmission(read: Published, pass: Pass, x: string)
    requires MissingTransitionTime(x) in Emits(read, pass)
    ensures x !in read.heldNodes && x in Publishes(read, pass).heldNodes
  {
    WarningsMember(read, pass.outcome.d, x);
    SortedMember(pass.outcome.d.heldMissingTimestamp, x);
  }

  lemma HeldStored(initial: Published, passes: seq<Pass>, i: nat, x: string)
    requires CachedReads(passes) && i < |passes| && passes[i].persisted
    requires EmittedAt(initial, passes, i, MissingTransitionTime(x))
    ensures x in Stored(initial, passes, i + 1).heldNodes
  {
    HeldEmission(ReadBy(initial, passes, i), passes[i], x);
    OnePass(initial, passes, i);
    assert StoresHeld(initial, passes, i, Publishes(ReadBy(initial, passes, i), passes[i]).heldNodes);
  }

  lemma HeldUnseen(initial: Published, passes: seq<Pass>, j: nat, x: string)
    requires CachedReads(passes) && j < |passes| && EmittedAt(initial, passes, j, MissingTransitionTime(x))
    ensures x !in Stored(initial, passes, passes[j].seen).heldNodes
  {
    HeldEmission(ReadBy(initial, passes, j), passes[j], x);
  }

  lemma {:induction false} HeldLost(initial: Published, passes: seq<Pass>, i: nat, j: nat, x: string)
    returns (k: nat, h: seq<string>)
    requires CachedReads(passes) && i <= j <= |passes|
    requires x in Stored(initial, passes, i).heldNodes && x !in Stored(initial, passes, j).heldNodes
    ensures i <= k < j && StoresHeld(initial, passes, k, h) && x !in h
    decreases j - i
  {
    if x in Stored(initial, passes, j - 1).heldNodes {
      k, h := j - 1, Stored(initial, passes, j).heldNodes;
      OnePass(initial, passes, j - 1);
    } else {
      k, h := HeldLost(initial, passes, i, j - 1, x);
    }
  }

  /** Only a pass that decided can have taken the node off the stored list. */
  lemma DroppedByDecision(initial: Published, passes: seq<Pass>, i: nat, j: nat, x: string)
    returns (k: nat, h: seq<string>)
    requires CachedReads(passes) && i < j <= |passes|
    requires x in Stored(initial, passes, i + 1).heldNodes && x !in Stored(initial, passes, j).heldNodes
    ensures i < k < j && StoresHeld(initial, passes, k, h) && x !in h && passes[k].outcome.Decided?
  {
    k, h := HeldLost(initial, passes, i + 1, j, x);
  }

  /**
   Two warnings about one undated node: the patch recording the first was lost, or the second pass still
   read a version older than it, or some pass in between decided and stored a held list without the node.
   */
  lemma HeldWarnsOnEdges(initial: Published, passes: seq<Pass>, i: nat, j: nat, x: string)
    returns (k: nat, h: seq<string>)
    requires CachedReads(passes) && i < j < |passes|
    requires EmittedAt(initial, passes, i, MissingTransitionTime(x))
    requires EmittedAt(initial, passes, j, MissingTransitionTime(x))
    ensures
      || !passes[i].persisted
      || passes[j].seen <= i
      || (i < k < passes[j].seen && StoresHeld(initial, passes, k, h) && x !in h && passes[k].outcome.Decided?)
  {
    k, h := 0, [];
    var read := passes[j].seen;
    assert read <= j;
    if passes[i].persisted && i < read {
      HeldStored(initial, passes, i, x);
      HeldUnseen(initial, passes, j, x);
      k, h := DroppedByDecision(initial, passes, i, read, x);
    }
  }

  ghost predicate HeldKept(initial: Published, passes: seq<Pass>, i: nat, j: nat, x: string)
    requires CachedReads(passes) && i < j <= |passes|
  {
    forall k, h :: i < k < j && StoresHeld(initial, passes, k, h) ==> x in h
  }

  /** Exactly when such a warning is repeated, as for the guard. */
  lemma HeldRepeatsExactly(initial: Published, passes: seq<Pass>, i: nat, j: nat, x: string)
    requires CachedReads(passes) && i < j < |passes|
    requires EmittedAt(initial, passes, i, MissingTransitionTime(x)) && passes[i].persisted
    requires forall m :: passes[i].seen <= m <= i ==> x !in Stored(initial, passes, m).heldNodes
    requires HeldKept(initial, passes, i, j, x)
    requires passes[j].outcome.Decided? && x in passes[j].outcome.d.heldMissingTimestamp
    ensures EmittedAt(initial, passes, j, MissingTransitionTime(x)) <==> passes[j].seen <= i
  {
    WarningsMember(ReadBy(initial, passes, j), passes[j].outcome.d, x);
    if i < passes[j].seen && EmittedAt(initial, passes, j, MissingTransitionTime(x)) {
      var k, h := HeldWarnsOnEdges(initial, passes, i, j, x);
    }
  }

  // ----- unusable specs

  lemma UndecidedKeepsLists(initial: Published, passes: seq<Pass>, k: nat)
    requires CachedReads(passes) && k < |passes| && !passes[k].outcome.Decided?
    ensures Stored(initial, passes, k + 1).(condition := None) == Stored(initial, passes, k).(condition := None)
  {
    var read := ReadBy(initial, passes, k);
    assert Publishes(read, passes[k]).(condition := None) == read.(condition := None);
  }

  /**
   However stale the versions they read, passes that cannot use the spec or abort leave every stored list
   and count as the last decision left it.
   */
  lemma {:induction false} OnlyDecisionsTouchLists(initial: Published, passes: seq<Pass>, i: nat, j: nat)
    requires CachedReads(passes) && i <= j <= |passes|
    requires forall k :: i <= k < j ==> !passes[k].outcome.Decided?
    ensures Stored(initial, passes, j).(condition := None) == Stored(initial, passes, i).(condition := None)
    decreases j - i
  {
    if i < j {
      OnlyDecisionsTouchLists(initial, passes, i, j - 1);
      UndecidedKeepsLists(initial, passes, j - 1);
    }
  }
}
