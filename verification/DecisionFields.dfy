/**
 The decision in terms of what was observed: every list and number of it, spelled out in the fields of the
 policy and the node facts.
 */
module DecisionFields {
  import opened Domain
  import opened Remediation
  import opened DecisionLaws

  // ----- the conditions, in fields

  predicate IsSelected(p: Policy, n: NodeFact)
  {
    p.selector.None? || p.selector.value(n.labels)
  }

  predicate IsMatched(p: Policy, n: NodeFact)
  {
    IsSelected(p, n) && n.condition.status == p.conditionStatus
  }

  predicate IsUnknown(p: Policy, n: NodeFact)
  {
    && IsSelected(p, n) && n.condition.status != p.conditionStatus
    && (n.condition.status == "Unknown" || n.condition.status == "")
  }

  /** Selected and determinately not matched. */
  predicate IsCleared(p: Policy, n: NodeFact)
  {
    IsSelected(p, n) && !IsMatched(p, n) && !IsUnknown(p, n)
  }

  predicate IsDeterminate(p: Policy, n: NodeFact)
  {
    IsMatched(p, n) || IsCleared(p, n)
  }

  predicate IsRemediated(p: Policy, n: NodeFact)
  {
    IsSelected(p, n) && n.hasTaint
  }

  predicate IsPending(p: Policy, n: NodeFact)
  {
    IsMatched(p, n) && !n.hasTaint && n.condition.lastTransition.Some?
  }

  predicate IsHeld(p: Policy, n: NodeFact)
  {
    n.condition.lastTransition.None? && ((IsMatched(p, n) && !n.hasTaint) || (IsCleared(p, n) && n.hasTaint))
  }

  /** Tainted, cleared and dated. */
  predicate IsLeaving(p: Policy, n: NodeFact)
  {
    IsCleared(p, n) && n.hasTaint && n.condition.lastTransition.Some?
  }

  predicate IsScopedOut(p: Policy, n: NodeFact)
  {
    !IsSelected(p, n) && n.hasTaint
  }

  /** Stable for at least this long. */
  predicate StableFor(n: NodeFact, window: int, now: int)
  {
    n.condition.lastTransition.Some? && now - n.condition.lastTransition.value >= window
  }

  /** How long a node still has to wait for its window to end: None if it does not wait at all. */
  function WaitOf(p: Policy, tripped: bool, now: int, n: NodeFact): Option<int>
  {
    if n.condition.lastTransition.None? then None
    else
      var stableFor := now - n.condition.lastTransition.value;
      if IsPending(p, n) && !tripped && stableFor < p.debounceEnter then Some(p.debounceEnter - stableFor)
      else if IsLeaving(p, n) && stableFor < p.debounceExit then Some(p.debounceExit - stableFor)
      else None
  }

  /** What a list of the decision collects. */
  datatype Column =
    | AllSelected | AllMatched | AllPending | AllUnknown | AllRemediated | AllHeld | AllDeterminate
    | AllScopedOut | AllLeavingFor(now: int) | AllPendingFor(now: int)

  predicate Collects(p: Policy, c: Column, n: NodeFact)
  {
    match c
    case AllSelected => IsSelected(p, n)
    case AllMatched => IsMatched(p, n)
    case AllPending => IsPending(p, n)
    case AllUnknown => IsUnknown(p, n)
    case AllRemediated => IsRemediated(p, n)
    case AllHeld => IsHeld(p, n)
    case AllDeterminate => IsDeterminate(p, n)
    case AllScopedOut => IsScopedOut(p, n)
    case AllLeavingFor(now) => IsLeaving(p, n) && StableFor(n, p.debounceExit, now)
    case AllPendingFor(now) => IsPending(p, n) && StableFor(n, p.debounceEnter, now)
  }

  /** The names a column collects, in node order. */
  function Picked(p: Policy, c: Column, nodes: seq<NodeFact>): seq<string>
  {
    if nodes == [] then []
    else (if Collects(p, c, nodes[0]) then [nodes[0].name] else []) + Picked(p, c, nodes[1..])
  }

  // ----- the lists are what the conditions pick

  lemma {:induction false} PickedAppend(p: Policy, c: Column, nodes: seq<NodeFact>, n: NodeFact)
    ensures Picked(p, c, nodes + [n]) == Picked(p, c, nodes) + if Collects(p, c, n) then [n.name] else []
  {
    if nodes == [] {
      assert [n][1..] == [] && nodes + [n] == [n];
    } else {
      var rest := nodes[1..];
      PickedAppend(p, c, rest, n);
      assert (nodes + [n])[1..] == rest + [n] && (nodes + [n])[0] == nodes[0];
      PickedAssoc(if Collects(p, c, nodes[0]) then [nodes[0].name] else [], Picked(p, c, rest),
        if Collects(p, c, n) then [n.name] else []);
    }
  }

  lemma PickedAssoc(a: seq<string>, b: seq<string>, c: seq<string>)
    ensures a + (b + c) == a + b + c
  {
  }

  lemma {:induction false} NamesArePicked(m: Moment, g: Group, c: Column, nodes: seq<NodeFact>)
    requires forall n :: Collects(m.policy, c, n) <==> Belongs(m, g, n)
    ensures Names(m, g, nodes) == Picked(m.policy, c, nodes)
  {
    if nodes != [] {
      var front, n := nodes[..|nodes| - 1], nodes[|nodes| - 1];
      NamesArePicked(m, g, c, front);
      PickedAppend(m.policy, c, front, n);
      NamesAppend(m, g, front, n);
      assert nodes == front + [n];
    }
  }

  lemma StatusInFields(p: Policy, nodes: seq<NodeFact>, now: int)
    ensures
      var s := DecisionFor(p, nodes, now).status;
      && s.selectedNodes == Picked(p, AllSelected, nodes)
      && s.matchedNodes == Picked(p, AllMatched, nodes)
      && s.pendingNodes == Picked(p, AllPending, nodes)
      && s.unknownNodes == Picked(p, AllUnknown, nodes)
      && s.remediatedNodes == Picked(p, AllRemediated, nodes)
  {
    var m := MomentOf(p, nodes, now);
    NamesArePicked(m, Selected, AllSelected, nodes);
    NamesArePicked(m, Matched, AllMatched, nodes);
    NamesArePicked(m, Pending, AllPending, nodes);
    NamesArePicked(m, Unknown, AllUnknown, nodes);
    NamesArePicked(m, Remediated, AllRemediated, nodes);
  }

  lemma GuardInFields(p: Policy, nodes: seq<NodeFact>, now: int)
    ensures
      var s := DecisionFor(p, nodes, now).status;
      var matched, determinate := |Picked(p, AllMatched, nodes)|, |Picked(p, AllDeterminate, nodes)|;
      && s.determinateCount == determinate
      && (s.guardTripped <==> determinate > 0 && matched * 100 > p.maxAffectedPercent * determinate)
  {
    NamesArePicked(Moment(p, false, 0), Matched, AllMatched, nodes);
    NamesArePicked(Moment(p, false, 0), Determinate, AllDeterminate, nodes);
  }

  lemma AppliesInFields(p: Policy, nodes: seq<NodeFact>, now: int)
    ensures
      var d := DecisionFor(p, nodes, now);
      d.applyTaint == if d.status.guardTripped then [] else Picked(p, AllPendingFor(now), nodes)
  {
    var m := MomentOf(p, nodes, now);
    if m.tripped {
      if Names(m, Applying, nodes) != [] {
        var i := NodeOf(m, Applying, nodes, Names(m, Applying, nodes)[0]);
      }
    } else {
      NamesArePicked(m, Applying, AllPendingFor(now), nodes);
    }
  }

  lemma HeldInFields(p: Policy, nodes: seq<NodeFact>, now: int)
    ensures DecisionFor(p, nodes, now).heldMissingTimestamp == Picked(p, AllHeld, nodes)
  {
    NamesArePicked(MomentOf(p, nodes, now), Held, AllHeld, nodes);
  }

  lemma LeavingInFields(m: Moment, n: NodeFact)
    ensures Belongs(m, Removing, n) <==> Collects(m.policy, AllLeavingFor(m.now), n)
  {
  }

  lemma RemovesInFields(p: Policy, nodes: seq<NodeFact>, now: int)
    ensures DecisionFor(p, nodes, now).removeTaint
         == Picked(p, AllScopedOut, nodes) + Picked(p, AllLeavingFor(now), nodes)
  {
    var m := MomentOf(p, nodes, now);
    NamesArePicked(m, ScopedOut, AllScopedOut, nodes);
    forall n ensures Belongs(m, Removing, n) <==> Collects(p, AllLeavingFor(now), n) {
      LeavingInFields(m, n);
    }
    NamesArePicked(m, Removing, AllLeavingFor(now), nodes);
  }

  /** The requeue is the shortest wait of a waiting node, and 0 if none waits. */
  ghost predicate ShortestWait(p: Policy, tripped: bool, nodes: seq<NodeFact>, now: int, r: int)
  {
    && (forall n :: n in nodes && WaitOf(p, tripped, now, n).Some? ==> 0 < r <= WaitOf(p, tripped, now, n).value)
    && (r != 0 ==> exists n :: n in nodes && WaitOf(p, tripped, now, n) == Some(r))
  }

  lemma WaitInFields(m: Moment, n: NodeFact)
    ensures Belongs(m, Waiting, n) <==> WaitOf(m.policy, m.tripped, m.now, n).Some?
    ensures Belongs(m, Waiting, n) ==> WaitOf(m.policy, m.tripped, m.now, n) == Some(Due(m.policy, n) - m.now)
  {
  }

  lemma RequeueInFields(p: Policy, nodes: seq<NodeFact>, now: int)
    ensures var d := DecisionFor(p, nodes, now);
            ShortestWait(p, d.status.guardTripped, nodes, now, d.requeueAfter)
  {
    var m := MomentOf(p, nodes, now);
    LeastWaitIsLeast(m, nodes);
    forall n ensures
      && (Belongs(m, Waiting, n) <==> WaitOf(p, m.tripped, now, n).Some?)
      && (Belongs(m, Waiting, n) ==> WaitOf(p, m.tripped, now, n) == Some(Due(p, n) - now))
    {
      WaitInFields(m, n);
    }
  }

  /**
   The whole decision in observed fields: each list is what its condition collects, in node order, the guard
   compares the two counts, and the requeue is the shortest wait.
   */
  lemma DecisionInFields(p: Policy, nodes: seq<NodeFact>, now: int)
    ensures
      var d := DecisionFor(p, nodes, now);
      var matched, determinate := |Picked(p, AllMatched, nodes)|, |Picked(p, AllDeterminate, nodes)|;
      && (d.status.guardTripped <==> determinate > 0 && matched * 100 > p.maxAffectedPercent * determinate)
      && d.status.determinateCount == determinate
      && d.applyTaint == (if d.status.guardTripped then [] else Picked(p, AllPendingFor(now), nodes))
      && d.removeTaint == Picked(p, AllScopedOut, nodes) + Picked(p, AllLeavingFor(now), nodes)
      && d.heldMissingTimestamp == Picked(p, AllHeld, nodes)
      && d.status.selectedNodes == Picked(p, AllSelected, nodes)
      && d.status.matchedNodes == Picked(p, AllMatched, nodes)
      && d.status.pendingNodes == Picked(p, AllPending, nodes)
      && d.status.unknownNodes == Picked(p, AllUnknown, nodes)
      && d.status.remediatedNodes == Picked(p, AllRemediated, nodes)
      && ShortestWait(p, d.status.guardTripped, nodes, now, d.requeueAfter)
  {
    StatusInFields(p, nodes, now);
    GuardInFields(p, nodes, now);
    AppliesInFields(p, nodes, now);
    RemovesInFields(p, nodes, now);
    HeldInFields(p, nodes, now);
    RequeueInFields(p, nodes, now);
  }

  /** With distinct names, what each reported list says about a node, in its observed fields. */
  lemma ReportsAreJustified(p: Policy, nodes: seq<NodeFact>, now: int, i: nat)
    requires DistinctNames(nodes) && i < |nodes|
    ensures
      var d := DecisionFor(p, nodes, now);
      var n := nodes[i];
      var c := n.condition;
      var selected := p.selector.None? || p.selector.value(n.labels);
      && (n.name in d.status.selectedNodes <==> selected)
      && (n.name in d.status.matchedNodes <==> selected && c.status == p.conditionStatus)
      && (n.name in d.status.pendingNodes <==>
            selected && c.status == p.conditionStatus && !n.hasTaint && c.lastTransition.Some?)
      && (n.name in d.status.unknownNodes <==>
            selected && c.status != p.conditionStatus && c.status in {"Unknown", ""})
      && (n.name in d.status.remediatedNodes <==> selected && n.hasTaint)
      && (n.name in d.heldMissingTimestamp <==>
            && selected && c.lastTransition.None?
            && (if c.status == p.conditionStatus then !n.hasTaint else c.status !in {"Unknown", ""} && n.hasTaint))
  {
    ListsAreExact(p, nodes, now, i);
  }
}
