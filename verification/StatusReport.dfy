/** What a pass publishes about its decision: the policy status, its one condition, and edge-triggered warnings. */
module StatusReport {
  import opened Domain
  import opened Remediation
  import opened DecisionLaws
  import opened Sorting

  // ----- the published status

  datatype Reason = InvalidSpec | GuardTripped | NodesRemediated | Pending | Held | NoRemediation

  /** The text of a condition is determined by its reason and either a count or an error. */
  datatype Message = Error(text: string) | Count(n: nat) | Plain

  datatype Condition = Condition(remediating: bool, reason: Reason, message: Message, observedGeneration: int)

  datatype Published = Published(
    selectedNodes: seq<string>,
    matchedNodes: seq<string>,
    pendingNodes: seq<string>,
    unknownNodes: seq<string>,
    heldNodes: seq<string>,
    remediatedNodes: seq<string>,
    selectedCount: nat,
    matchedCount: nat,
    pendingCount: nat,
    remediatedCount: nat,
    unknownCount: nat,
    heldCount: nat,
    condition: Option<Condition>)

  function ReasonFor(d: Decision): Reason
  {
    if d.status.guardTripped then GuardTripped
    else if |d.status.remediatedNodes| > 0 then NodesRemediated
    else if |d.status.pendingNodes| > 0 then Reason.Pending
    else if |d.heldMissingTimestamp| > 0 || |d.status.unknownNodes| > 0 then Reason.Held
    else NoRemediation
  }

  function MessageFor(d: Decision): Message
  {
    match ReasonFor(d)
    case GuardTripped => Count(|d.status.remediatedNodes|)
    case NodesRemediated => Count(|d.status.remediatedNodes|)
    case Pending => Count(|d.status.pendingNodes|)
    case Held => Count(|d.heldMissingTimestamp| + |d.status.unknownNodes|)
    case _ => Plain
  }

  function StatusOf(d: Decision, generation: int): Published
  {
    Published(
      Sorted(d.status.selectedNodes),
      Sorted(d.status.matchedNodes),
      Sorted(d.status.pendingNodes),
      Sorted(d.status.unknownNodes),
      Sorted(d.heldMissingTimestamp),
      Sorted(d.status.remediatedNodes),
      |d.status.selectedNodes|,
      |d.status.matchedNodes|,
      |d.status.pendingNodes|,
      |d.status.remediatedNodes|,
      |d.status.unknownNodes|,
      |d.heldMissingTimestamp|,
      Some(Condition(ReasonFor(d) == NodesRemediated, ReasonFor(d), MessageFor(d), generation)))
  }

  function Rejected(status: Published, error: string, generation: int): Published
  {
    status.(condition := Some(Condition(false, InvalidSpec, Error(error), generation)))
  }

  // ----- warnings

  datatype Event = SpecRejected | GuardWarning | MissingTransitionTime(node: string)

  predicate HasReason(status: Published, reason: Reason)
  {
    status.condition.Some? && status.condition.value.reason == reason
  }

  function HeldWarnings(held: seq<string>, reported: seq<string>): seq<Event>
  {
    if held == [] then []
    else
      var name := held[|held| - 1];
      var rest := HeldWarnings(held[..|held| - 1], reported);
      if name in reported then rest else rest + [MissingTransitionTime(name)]
  }

  function Warnings(before: Published, d: Decision): seq<Event>
  {
    (if d.status.guardTripped && !HasReason(before, GuardTripped) then [GuardWarning] else [])
      + HeldWarnings(Sorted(d.heldMissingTimestamp), before.heldNodes)
  }

  /** Warn about every held node that was not reported before. */
  method WarnAboutHeld(held: seq<string>, reported: seq<string>) returns (events: seq<Event>)
    ensures events == HeldWarnings(held, reported)
  {
    events := [];
    for i := 0 to |held|
      invariant events == HeldWarnings(held[..i], reported)
    {
      assert held[..i + 1][..i] == held[..i];
      if held[i] in reported {
        continue;
      }
      events := events + [MissingTransitionTime(held[i])];
    }
    assert held[..|held|] == held;
  }

  // ----- the contents of the status, field by field

  /** A published list and count: the names in ascending order, with their number. */
  ghost predicate Shows(published: seq<string>, count: nat, names: seq<string>)
  {
    Ascending(published) && multiset(published) == multiset(names) && count == |names|
  }

  /**
   The one condition: a tripped guard comes first, then remediated nodes, then pending ones, then held or
   unknown ones; only remediated nodes make it true.
   */
  predicate Explains(c: Condition, d: Decision, generation: int)
  {
    var remediated, pending := |d.status.remediatedNodes|, |d.status.pendingNodes|;
    var withheld := |d.heldMissingTimestamp| + |d.status.unknownNodes|;
    && c.observedGeneration == generation
    && (d.status.guardTripped ==> c.reason == GuardTripped && c.message == Count(remediated) && !c.remediating)
    && (!d.status.guardTripped && remediated > 0 ==>
          c.reason == NodesRemediated && c.message == Count(remediated) && c.remediating)
    && (!d.status.guardTripped && remediated == 0 && pending > 0 ==>
          c.reason == Reason.Pending && c.message == Count(pending) && !c.remediating)
    && (!d.status.guardTripped && remediated == 0 && pending == 0 && withheld > 0 ==>
          c.reason == Reason.Held && c.message == Count(withheld) && !c.remediating)
    && (!d.status.guardTripped && remediated == 0 && pending == 0 && withheld == 0 ==>
          c.reason == NoRemediation && c.message == Plain && !c.remediating)
  }

  ghost predicate Reports(status: Published, d: Decision, generation: int)
  {
    && Shows(status.selectedNodes, status.selectedCount, d.status.selectedNodes)
    && Shows(status.matchedNodes, status.matchedCount, d.status.matchedNodes)
    && Shows(status.pendingNodes, status.pendingCount, d.status.pendingNodes)
    && Shows(status.unknownNodes, status.unknownCount, d.status.unknownNodes)
    && Shows(status.heldNodes, status.heldCount, d.heldMissingTimestamp)
    && Shows(status.remediatedNodes, status.remediatedCount, d.status.remediatedNodes)
    && status.condition.Some? && Explains(status.condition.value, d, generation)
  }

  lemma SortedShows(names: seq<string>)
    ensures Shows(Sorted(names), |names|, names)
  {
    SortedIsSort(names);
  }

  lemma ShowsSorted(published: seq<string>, count: nat, names: seq<string>)
    requires Shows(published, count, names)
    ensures published == Sorted(names) && count == |names|
  {
    SortedIsSort(names);
    AscendingUnique(published, Sorted(names));
  }

  lemma ConditionExplains(d: Decision, generation: int)
    ensures var c := StatusOf(d, generation).condition; c.Some? && Explains(c.value, d, generation)
  {
  }

  lemma StatusReports(d: Decision, generation: int)
    ensures Reports(StatusOf(d, generation), d, generation)
  {
    ConditionExplains(d, generation);
    ListsAreShown(d, generation);
  }

  lemma ListsAreShown(d: Decision, generation: int)
    ensures
      var status := StatusOf(d, generation);
      && Shows(status.selectedNodes, status.selectedCount, d.status.selectedNodes)
      && Shows(status.matchedNodes, status.matchedCount, d.status.matchedNodes)
      && Shows(status.pendingNodes, status.pendingCount, d.status.pendingNodes)
      && Shows(status.unknownNodes, status.unknownCount, d.status.unknownNodes)
      && Shows(status.heldNodes, status.heldCount, d.heldMissingTimestamp)
      && Shows(status.remediatedNodes, status.remediatedCount, d.status.remediatedNodes)
  {
    SortedShows(d.status.selectedNodes);
    SortedShows(d.status.matchedNodes);
    SortedShows(d.status.pendingNodes);
    SortedShows(d.status.unknownNodes);
    SortedShows(d.heldMissingTimestamp);
    SortedShows(d.status.remediatedNodes);
  }

  lemma OneExplanation(c: Condition, d: Decision, generation: int)
    requires Explains(c, d, generation)
    ensures StatusOf(d, generation).condition == Some(c)
  {
  }

  /** The contents of the status leave no choice: there is one status that reports a decision. */
  lemma ReportsExactly(status: Published, d: Decision, generation: int)
    ensures Reports(status, d, generation) <==> status == StatusOf(d, generation)
  {
    StatusReports(d, generation);
    if Reports(status, d, generation) {
      OneExplanation(status.condition.value, d, generation);
      ShowsSorted(status.selectedNodes, status.selectedCount, d.status.selectedNodes);
      ShowsSorted(status.matchedNodes, status.matchedCount, d.status.matchedNodes);
      ShowsSorted(status.pendingNodes, status.pendingCount, d.status.pendingNodes);
      ShowsSorted(status.unknownNodes, status.unknownCount, d.status.unknownNodes);
      ShowsSorted(status.heldNodes, status.heldCount, d.heldMissingTimestamp);
      ShowsSorted(status.remediatedNodes, status.remediatedCount, d.status.remediatedNodes);
    }
  }

  // ----- the policy object

  /** The copy of the policy a pass works on. */
  class PolicyObject {
    const generation: int
    var status: Published

    constructor (generation: int, status: Published)
      ensures this.generation == generation && this.status == status
    {
      this.generation := generation;
      this.status := status;
    }

    method SetRemediatingCondition(remediating: bool, reason: Reason, message: Message)
      modifies this
      ensures status == old(status).(condition := Some(Condition(remediating, reason, message, generation)))
    {
      status := status.(condition := Some(Condition(remediating, reason, message, generation)));
    }

    method MarkInvalidSpec(error: string)
      modifies this
      ensures status == Rejected(old(status), error, generation)
    {
      SetRemediatingCondition(false, InvalidSpec, Error(error));
    }

    method MarkGuardTripped(remediated: nat)
      modifies this
      ensures status == old(status).(condition := Some(Condition(false, GuardTripped, Count(remediated), generation)))
    {
      SetRemediatingCondition(false, GuardTripped, Count(remediated));
    }

    method MarkNodesRemediated(count: nat)
      modifies this
      ensures status == old(status).(condition := Some(Condition(true, NodesRemediated, Count(count), generation)))
    {
      SetRemediatingCondition(true, NodesRemediated, Count(count));
    }

    method MarkPending(count: nat)
      modifies this
      ensures status == old(status).(condition := Some(Condition(false, Reason.Pending, Count(count), generation)))
    {
      SetRemediatingCondition(false, Reason.Pending, Count(count));
    }

    method MarkHeld(count: nat)
      modifies this
      ensures status == old(status).(condition := Some(Condition(false, Reason.Held, Count(count), generation)))
    {
      SetRemediatingCondition(false, Reason.Held, Count(count));
    }

    method MarkNoRemediation()
      modifies this
      ensures status == old(status).(condition := Some(Condition(false, NoRemediation, Plain, generation)))
    {
      SetRemediatingCondition(false, NoRemediation, Plain);
    }

    method WriteStatus(d: Decision)
      modifies this
      ensures status == StatusOf(d, generation)
      ensures Reports(status, d, generation)
    {
      status := Published(
        Sorted(d.status.selectedNodes), Sorted(d.status.matchedNodes), Sorted(d.status.pendingNodes),
        Sorted(d.status.unknownNodes), Sorted(d.heldMissingTimestamp), Sorted(d.status.remediatedNodes),
        |d.status.selectedNodes|, |d.status.matchedNodes|, |d.status.pendingNodes|,
        |d.status.remediatedNodes|, |d.status.unknownNodes|, |d.heldMissingTimestamp|,
        status.condition);
      if d.status.guardTripped {
        MarkGuardTripped(|d.status.remediatedNodes|);
      } else if |d.status.remediatedNodes| > 0 {
        MarkNodesRemediated(|d.status.remediatedNodes|);
      } else if |d.status.pendingNodes| > 0 {
        MarkPending(|d.status.pendingNodes|);
      } else if |d.heldMissingTimestamp| > 0 || |d.status.unknownNodes| > 0 {
        MarkHeld(|d.heldMissingTimestamp| + |d.status.unknownNodes|);
      } else {
        MarkNoRemediation();
      }
      assert status == StatusOf(d, generation);
      StatusReports(d, generation);
    }

    /** The end of a pass that decided: write the status, then warn about what is new. */
    method ReportDecision(d: Decision) returns (events: seq<Event>)
      modifies this
      ensures status == StatusOf(d, generation) && events == Warnings(old(status), d)
    {
      var oldHeld := status.heldNodes;
      var wasTripped := status.condition.Some? && status.condition.value.reason == GuardTripped;
      WriteStatus(d);
      var warnings := WarnAboutHeld(Sorted(d.heldMissingTimestamp), oldHeld);
      events := if d.status.guardTripped && !wasTripped then [GuardWarning] + warnings else warnings;
    }

    /** The end of a pass whose spec cannot be projected: only the condition changes. */
    method RejectSpec(error: string) returns (events: seq<Event>)
      modifies this
      ensures status == Rejected(old(status), error, generation)
      ensures status.condition == Some(Condition(false, InvalidSpec, Error(error), generation))
      ensures status.(condition := None) == old(status).(condition := None)
      ensures events == if status != old(status) then [SpecRejected] else []
    {
      var before := status;
      MarkInvalidSpec(error);
      events := if status != before then [SpecRejected] else [];
    }
  }

  // ----- what the published reason means

  /** Two decisions that differ only in the order of their lists. */
  predicate SameLists(d: Decision, e: Decision)
  {
    && multiset(d.heldMissingTimestamp) == multiset(e.heldMissingTimestamp)
    && multiset(d.status.selectedNodes) == multiset(e.status.selectedNodes)
    && multiset(d.status.matchedNodes) == multiset(e.status.matchedNodes)
    && multiset(d.status.pendingNodes) == multiset(e.status.pendingNodes)
    && multiset(d.status.unknownNodes) == multiset(e.status.unknownNodes)
    && multiset(d.status.remediatedNodes) == multiset(e.status.remediatedNodes)
    && d.status.guardTripped == e.status.guardTripped
  }

  /** Two decisions whose lists have the same sizes and are the same once sorted. */
  predicate SameSortedLists(d: Decision, e: Decision)
  {
    && SameOnceSorted(d.heldMissingTimestamp, e.heldMissingTimestamp)
    && SameOnceSorted(d.status.selectedNodes, e.status.selectedNodes)
    && SameOnceSorted(d.status.matchedNodes, e.status.matchedNodes)
    && SameOnceSorted(d.status.pendingNodes, e.status.pendingNodes)
    && SameOnceSorted(d.status.unknownNodes, e.status.unknownNodes)
    && SameOnceSorted(d.status.remediatedNodes, e.status.remediatedNodes)
    && d.status.guardTripped == e.status.guardTripped
  }

  predicate SameOnceSorted(x: seq<string>, y: seq<string>)
  {
    |x| == |y| && Sorted(x) == Sorted(y)
  }

  lemma SortingHidesOrder(d: Decision, e: Decision)
    requires SameLists(d, e)
    ensures SameSortedLists(d, e)
  {
    SameSorted(d.status.selectedNodes, e.status.selectedNodes);
    SameSorted(d.status.matchedNodes, e.status.matchedNodes);
    SameSorted(d.status.pendingNodes, e.status.pendingNodes);
    SameSorted(d.status.unknownNodes, e.status.unknownNodes);
    SameSorted(d.status.remediatedNodes, e.status.remediatedNodes);
    SameSorted(d.heldMissingTimestamp, e.heldMissingTimestamp);
  }

  lemma SamePublished(d: Decision, e: Decision, generation: int, before: Published)
    requires SameSortedLists(d, e)
    ensures StatusOf(d, generation) == StatusOf(e, generation) && Warnings(before, d) == Warnings(before, e)
  {
  }

  /** Listing the nodes in another order publishes the very same status and warnings. */
  lemma PublishedOrderIndependent(p: Policy, a: seq<NodeFact>, b: seq<NodeFact>, now: int,
                                  generation: int, before: Published)
    requires multiset(a) == multiset(b)
    ensures StatusOf(DecisionFor(p, a, now), generation) == StatusOf(DecisionFor(p, b, now), generation)
    ensures Warnings(before, DecisionFor(p, a, now)) == Warnings(before, DecisionFor(p, b, now))
  {
    OrderIndependence(p, a, b, now);
    SortingHidesOrder(DecisionFor(p, a, now), DecisionFor(p, b, now));
    SamePublished(DecisionFor(p, a, now), DecisionFor(p, b, now), generation, before);
  }

  /** "No remediation" is published exactly when every selected node is determinately cleared and untainted. */
  lemma ReasonIsExact(p: Policy, nodes: seq<NodeFact>, now: int)
    requires p.maxAffectedPercent >= 0
    ensures ReasonFor(DecisionFor(p, nodes, now)) == NoRemediation <==>
      forall i :: 0 <= i < |nodes| && InScope(p, nodes[i]) ==>
        !Matches(p, nodes[i]) && !Silent(nodes[i]) && !nodes[i].hasTaint
  {
    var m := MomentOf(p, nodes, now);
    if ReasonFor(DecisionFor(p, nodes, now)) == NoRemediation {
      forall i | 0 <= i < |nodes| && InScope(p, nodes[i])
        ensures !Matches(p, nodes[i]) && !Silent(nodes[i]) && !nodes[i].hasTaint
      {
        NamesMember(m, Remediated, nodes, nodes[i].name);
        NamesMember(m, Group.Pending, nodes, nodes[i].name);
        NamesMember(m, Group.Held, nodes, nodes[i].name);
        NamesMember(m, Unknown, nodes, nodes[i].name);
      }
    } else {
      CountsAreSizes(p, nodes, now);
      var g := if m.tripped then Matched
               else if Names(m, Remediated, nodes) != [] then Remediated
               else if Names(m, Group.Pending, nodes) != [] then Group.Pending
               else if Names(m, Group.Held, nodes) != [] then Group.Held
               else Unknown;
      var i := NodeOf(m, g, nodes, Names(m, g, nodes)[0]);
    }
  }

  /** The one condition is true exactly when the guard lets the policy act and some selected node has the taint. */
  lemma RemediatingIsExact(p: Policy, nodes: seq<NodeFact>, now: int, generation: int)
    ensures
      var condition := StatusOf(DecisionFor(p, nodes, now), generation).condition.value;
      && condition.observedGeneration == generation
      && (condition.remediating <==>
            !Tripped(p, nodes) && exists i :: 0 <= i < |nodes| && InScope(p, nodes[i]) && nodes[i].hasTaint)
  {
    var m := MomentOf(p, nodes, now);
    var names := Names(m, Remediated, nodes);
    if names != [] {
      var i := NodeOf(m, Remediated, nodes, names[0]);
    }
    forall i | 0 <= i < |nodes| && InScope(p, nodes[i]) && nodes[i].hasTaint ensures names != [] {
      NamesMember(m, Remediated, nodes, nodes[i].name);
    }
  }

  /** The number reported with "held" counts distinct nodes: none is both undated and silent. */
  lemma HeldCountsNodes(p: Policy, nodes: seq<NodeFact>, now: int)
    requires DistinctNames(nodes)
    ensures
      var d := DecisionFor(p, nodes, now);
      var distinct := (set x | x in d.heldMissingTimestamp) + (set x | x in d.status.unknownNodes);
      |distinct| == |d.heldMissingTimestamp| + |d.status.unknownNodes|
  {
    var m := MomentOf(p, nodes, now);
    var d := DecisionFor(p, nodes, now);
    NamesDistinct(m, Group.Held, nodes);
    NamesDistinct(m, Unknown, nodes);
    var a, b := set x | x in d.heldMissingTimestamp, set x | x in d.status.unknownNodes;
    forall x ensures !(x in a && x in b) {
      ActionsAreExclusive(p, nodes, now, x);
    }
  }

  lemma {:induction false} HeldWarningsMember(held: seq<string>, reported: seq<string>, e: Event)
    ensures e in HeldWarnings(held, reported) <==> e.MissingTransitionTime? && e.node in held && e.node !in reported
  {
    if held != [] {
      HeldWarningsMember(held[..|held| - 1], reported, e);
      assert held == held[..|held| - 1] + [held[|held| - 1]];
    }
  }

  lemma {:induction false} HeldWarningsCount(held: seq<string>, reported: seq<string>, x: string)
    ensures multiset(HeldWarnings(held, reported))[MissingTransitionTime(x)]
         == if x in reported then 0 else multiset(held)[x]
    ensures forall e :: e in HeldWarnings(held, reported) ==> e.MissingTransitionTime?
  {
    if held != [] {
      HeldWarningsCount(held[..|held| - 1], reported, x);
      assert held == held[..|held| - 1] + [held[|held| - 1]];
    }
  }

  /** How often a pass warns: about the guard once and first, and then once for every newly held name. */
  lemma WarningsCount(before: Published, d: Decision, x: string)
    ensures multiset(Warnings(before, d))[MissingTransitionTime(x)]
         == if x in before.heldNodes then 0 else multiset(d.heldMissingTimestamp)[x]
    ensures d.status.guardTripped && !HasReason(before, GuardTripped) ==>
              Warnings(before, d) != [] && Warnings(before, d)[0] == GuardWarning
    ensures forall i :: 0 < i < |Warnings(before, d)| ==> Warnings(before, d)[i].MissingTransitionTime?
    ensures SpecRejected !in Warnings(before, d)
  {
    HeldWarningsCount(Sorted(d.heldMissingTimestamp), before.heldNodes, x);
    SortedIsSort(d.heldMissingTimestamp);
  }

  /** When exactly a pass warns about the guard and about an undated node. */
  lemma WarningsMember(before: Published, d: Decision, x: string)
    ensures GuardWarning in Warnings(before, d) <==> d.status.guardTripped && !HasReason(before, GuardTripped)
    ensures MissingTransitionTime(x) in Warnings(before, d) <==> x in d.heldMissingTimestamp && x !in before.heldNodes
  {
    HeldWarningsMember(Sorted(d.heldMissingTimestamp), before.heldNodes, GuardWarning);
    HeldWarningsMember(Sorted(d.heldMissingTimestamp), before.heldNodes, MissingTransitionTime(x));
    SortedMember(d.heldMissingTimestamp, x);
  }
}
