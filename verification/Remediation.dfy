/**
 The decision core: which nodes gain or lose the taint, what is reported, and when to look again.

 The declarative side assigns every node to groups by a per-node predicate (`Belongs`); the method
 `Decide` is the two-loop algorithm and is proved to list exactly those groups, in node order.
 */
module Remediation {
  import opened Domain

  const STATUS_UNKNOWN := "Unknown"
  const STATUS_UNREPORTED := ""

  datatype ConditionFact = ConditionFact(status: string, lastTransition: Option<int>)

  datatype NodeFact = NodeFact(name: string, labels: Labels, condition: ConditionFact, hasTaint: bool)

  /** `selector` is None for the nil selector, which selects every node. */
  datatype Policy = Policy(
    selector: Option<Labels -> bool>,
    conditionType: string,
    conditionStatus: string,
    taint: Taint,
    debounceEnter: int,
    debounceExit: int,
    maxAffectedPercent: int)

  datatype Status = Status(
    selectedNodes: seq<string>,
    matchedNodes: seq<string>,
    pendingNodes: seq<string>,
    unknownNodes: seq<string>,
    remediatedNodes: seq<string>,
    guardTripped: bool,
    determinateCount: nat)

  datatype Decision = Decision(
    applyTaint: seq<string>,
    removeTaint: seq<string>,
    heldMissingTimestamp: seq<string>,
    requeueAfter: int,
    status: Status)

  // ----- the per-node specification

  predicate InScope(p: Policy, n: NodeFact)
  {
    p.selector.None? || p.selector.value(n.labels)
  }

  predicate Matches(p: Policy, n: NodeFact)
  {
    n.condition.status == p.conditionStatus
  }

  /** The node gives no signal at all: its condition is Unknown or not reported. */
  predicate Silent(n: NodeFact)
  {
    n.condition.status == STATUS_UNKNOWN || n.condition.status == STATUS_UNREPORTED
  }

  predicate Dated(n: NodeFact)
  {
    n.condition.lastTransition.Some?
  }

  /** What one decision is relative to: the policy, whether its guard tripped, and the clock. */
  datatype Moment = Moment(policy: Policy, tripped: bool, now: int)

  datatype Group =
    | Selected | Matched | Unknown | Cleared | Determinate
    | Remediated | RemediatedMatched | RemediatedUnmatched
    | UntaintedMatched | Held | HeldMatched | Pending
    | Applying | Removing      // past the window: acted on now
    | Waiting                  // inside the window: looked at again later
    | ScopedOut                // tainted but not selected

  /** The debounce window that applies to a node that is Entering or Exiting. */
  function Window(p: Policy, n: NodeFact): int
  {
    if Matches(p, n) then p.debounceEnter else p.debounceExit
  }

  /** The instant at which a dated node has been stable for its whole window. */
  function Due(p: Policy, n: NodeFact): int
    requires Dated(n)
  {
    n.condition.lastTransition.value + Window(p, n)
  }

  /** Inside or past its enter window, with the guard letting it through. */
  predicate Entering(m: Moment, n: NodeFact)
  {
    InScope(m.policy, n) && Matches(m.policy, n) && !n.hasTaint && Dated(n) && !m.tripped
  }

  /** Determinately cleared and still tainted: inside or past its exit window. */
  predicate Exiting(p: Policy, n: NodeFact)
  {
    InScope(p, n) && !Matches(p, n) && !Silent(n) && n.hasTaint && Dated(n)
  }

  predicate Belongs(m: Moment, g: Group, n: NodeFact)
  {
    var p := m.policy;
    match g
    case Selected => InScope(p, n)
    case Matched => InScope(p, n) && Matches(p, n)
    case Unknown => InScope(p, n) && !Matches(p, n) && Silent(n)
    case Cleared => InScope(p, n) && !Matches(p, n) && !Silent(n)
    case Determinate => InScope(p, n) && (Matches(p, n) || !Silent(n))
    case Remediated => InScope(p, n) && n.hasTaint
    case RemediatedMatched => InScope(p, n) && n.hasTaint && Matches(p, n)
    case RemediatedUnmatched => InScope(p, n) && n.hasTaint && !Matches(p, n)
    case UntaintedMatched => InScope(p, n) && Matches(p, n) && !n.hasTaint
    case HeldMatched => InScope(p, n) && Matches(p, n) && !n.hasTaint && !Dated(n)
    case Held =>
      && InScope(p, n) && !Dated(n)
      && (if Matches(p, n) then !n.hasTaint else !Silent(n) && n.hasTaint)
    case Pending => InScope(p, n) && Matches(p, n) && !n.hasTaint && Dated(n)
    case Applying => Entering(m, n) && Due(p, n) <= m.now
    case Removing => Exiting(p, n) && Due(p, n) <= m.now
    case Waiting => (Entering(m, n) || Exiting(p, n)) && m.now < Due(p, n)
    case ScopedOut => !InScope(p, n) && n.hasTaint
  }

  function Extend(names: seq<string>, keep: bool, name: string): seq<string>
  {
    if keep then names + [name] else names
  }

  /** The names of the nodes of a group, in node order. */
  function Names(m: Moment, g: Group, nodes: seq<NodeFact>): seq<string>
  {
    if nodes == [] then []
    else
      var last := |nodes| - 1;
      Extend(Names(m, g, nodes[..last]), Belongs(m, g, nodes[last]), nodes[last].name)
  }

  /** The running minimum over strictly positive delays; 0 stands for "none yet". */
  function MinPositive(cur: int, next: int): (r: int)
    ensures cur >= 0 ==> r >= 0 && (r == 0 <==> cur == 0 && next <= 0)
    ensures next > 0 ==> r <= next
    ensures cur > 0 ==> 0 < r <= cur
    ensures r == cur || r == next
  {
    if next <= 0 then cur
    else if cur == 0 || next < cur then next
    else cur
  }

  /** The smallest remaining wait over the Waiting nodes, 0 if none waits. */
  function LeastWait(m: Moment, nodes: seq<NodeFact>): (r: int)
    ensures r >= 0
  {
    if nodes == [] then 0
    else
      var last := |nodes| - 1;
      var r := LeastWait(m, nodes[..last]);
      if Belongs(m, Waiting, nodes[last]) then MinPositive(r, Due(m.policy, nodes[last]) - m.now) else r
  }

  /** Exact-rational comparison: matched/determinate > percent/100. */
  predicate GuardTrips(percent: int, matched: nat, determinate: nat)
  {
    determinate > 0 && matched * 100 > percent * determinate
  }

  function MatchedCount(p: Policy, nodes: seq<NodeFact>): nat
  {
    |Names(Moment(p, false, 0), Matched, nodes)|
  }

  function DeterminateCount(p: Policy, nodes: seq<NodeFact>): nat
  {
    |Names(Moment(p, false, 0), Determinate, nodes)|
  }

  predicate Tripped(p: Policy, nodes: seq<NodeFact>)
  {
    GuardTrips(p.maxAffectedPercent, MatchedCount(p, nodes), DeterminateCount(p, nodes))
  }

  function MomentOf(p: Policy, nodes: seq<NodeFact>, now: int): Moment
  {
    Moment(p, Tripped(p, nodes), now)
  }

  function StatusFor(p: Policy, nodes: seq<NodeFact>, now: int): Status
  {
    var m := MomentOf(p, nodes, now);
    Status(
      Names(m, Selected, nodes),
      Names(m, Matched, nodes),
      Names(m, Pending, nodes),
      Names(m, Unknown, nodes),
      Names(m, Remediated, nodes),
      m.tripped,
      DeterminateCount(p, nodes))
  }

  /** The declarative decision: every list is a group of nodes, every group a per-node predicate. */
  function DecisionFor(p: Policy, nodes: seq<NodeFact>, now: int): Decision
  {
    var m := MomentOf(p, nodes, now);
    Decision(
      Names(m, Applying, nodes),
      Names(m, ScopedOut, nodes) + Names(m, Removing, nodes),
      Names(m, Held, nodes),
      LeastWait(m, nodes),
      StatusFor(p, nodes, now))
  }

  // ----- the algorithm

  datatype Evaluated = Evaluated(fact: NodeFact, matches: bool)

  function SelectedFacts(p: Policy, nodes: seq<NodeFact>): seq<NodeFact>
  {
    if nodes == [] then []
    else
      var last := |nodes| - 1;
      if InScope(p, nodes[last]) then SelectedFacts(p, nodes[..last]) + [nodes[last]]
      else SelectedFacts(p, nodes[..last])
  }

  /** One step of every order-preserving scan below. */
  lemma NamesStep(m: Moment, g: Group, nodes: seq<NodeFact>, i: nat)
    requires i < |nodes|
    ensures Names(m, g, nodes[..i + 1]) == Extend(Names(m, g, nodes[..i]), Belongs(m, g, nodes[i]), nodes[i].name)
  {
    assert nodes[..i + 1][..i] == nodes[..i];
  }

  lemma SelectedStep(p: Policy, nodes: seq<NodeFact>, i: nat)
    requires i < |nodes|
    ensures SelectedFacts(p, nodes[..i + 1]) ==
            if InScope(p, nodes[i]) then SelectedFacts(p, nodes[..i]) + [nodes[i]] else SelectedFacts(p, nodes[..i])
  {
    assert nodes[..i + 1][..i] == nodes[..i];
  }

  lemma NamesAppend(m: Moment, g: Group, s: seq<NodeFact>, n: NodeFact)
    ensures Names(m, g, s + [n]) == Extend(Names(m, g, s), Belongs(m, g, n), n.name)
  {
    assert (s + [n])[..|s|] == s;
  }

  lemma LeastWaitAppend(m: Moment, s: seq<NodeFact>, n: NodeFact)
    ensures LeastWait(m, s + [n]) ==
            if Belongs(m, Waiting, n) then MinPositive(LeastWait(m, s), Due(m.policy, n) - m.now) else LeastWait(m, s)
  {
    assert (s + [n])[..|s|] == s;
  }

  lemma OutOfScope(m: Moment, g: Group, n: NodeFact)
    requires g != ScopedOut && !InScope(m.policy, n)
    ensures !Belongs(m, g, n)
  {
  }

  /** Scanning only the selected nodes loses nothing of a group that lies within the scope. */
  lemma {:induction false} SelectedSuffices(m: Moment, g: Group, nodes: seq<NodeFact>)
    requires g != ScopedOut
    ensures Names(m, g, SelectedFacts(m.policy, nodes)) == Names(m, g, nodes)
  {
    if nodes != [] {
      var front, n := nodes[..|nodes| - 1], nodes[|nodes| - 1];
      SelectedSuffices(m, g, front);
      if InScope(m.policy, n) {
        NamesAppend(m, g, SelectedFacts(m.policy, front), n);
      } else {
        OutOfScope(m, g, n);
      }
    }
  }

  lemma {:induction false} SelectedWaits(m: Moment, nodes: seq<NodeFact>)
    ensures LeastWait(m, SelectedFacts(m.policy, nodes)) == LeastWait(m, nodes)
  {
    if nodes != [] {
      var front, n := nodes[..|nodes| - 1], nodes[|nodes| - 1];
      SelectedWaits(m, front);
      if InScope(m.policy, n) {
        LeastWaitAppend(m, SelectedFacts(m.policy, front), n);
      } else {
        OutOfScope(m, Waiting, n);
      }
    }
  }

  /** Two scans list the same names when they agree node by node. */
  lemma {:induction false} NamesAlike(m: Moment, a: seq<NodeFact>, o: Moment, b: seq<NodeFact>, g: Group)
    requires |a| == |b|
    requires forall i :: 0 <= i < |a| ==> a[i].name == b[i].name && (Belongs(m, g, a[i]) <==> Belongs(o, g, b[i]))
    ensures Names(m, g, a) == Names(o, g, b)
  {
    if a != [] {
      NamesAlike(m, a[..|a| - 1], o, b[..|b| - 1], g);
    }
  }

  /** A group's members do not depend on the parts of the moment its predicate ignores. */
  lemma NamesAgree(m: Moment, o: Moment, g: Group, nodes: seq<NodeFact>)
    requires forall i :: 0 <= i < |nodes| ==> (Belongs(m, g, nodes[i]) <==> Belongs(o, g, nodes[i]))
    ensures Names(m, g, nodes) == Names(o, g, nodes)
  {
    NamesAlike(m, nodes, o, nodes, g);
  }

  /** The evaluated selection: the in-scope nodes in order, each with its match already decided. */
  predicate Evaluates(p: Policy, selected: seq<Evaluated>, facts: seq<NodeFact>)
  {
    && |selected| == |facts|
    && forall j :: 0 <= j < |facts| ==>
         selected[j].fact == facts[j] && InScope(p, facts[j]) && selected[j].matches == Matches(p, facts[j])
  }

  /** First loop of the decision procedure: select, evaluate the match once, and count for the guard. */
  method SelectNodes(p: Policy, nodes: seq<NodeFact>)
    returns (selected: seq<Evaluated>, scopedOutTainted: seq<string>, matchedCount: nat, determinateCount: nat)
    ensures Evaluates(p, selected, SelectedFacts(p, nodes))
    ensures scopedOutTainted == Names(Moment(p, false, 0), ScopedOut, nodes)
    ensures matchedCount == MatchedCount(p, nodes)
    ensures determinateCount == DeterminateCount(p, nodes)
  {
    var selector: Labels -> bool := if p.selector.None? then labels => true else p.selector.value;
    selected, scopedOutTainted, matchedCount, determinateCount := [], [], 0, 0;
    ghost var m0 := Moment(p, false, 0);
    for i := 0 to |nodes|
      invariant Evaluates(p, selected, SelectedFacts(p, nodes[..i]))
      invariant scopedOutTainted == Names(m0, ScopedOut, nodes[..i])
      invariant matchedCount == |Names(m0, Matched, nodes[..i])|
      invariant determinateCount == |Names(m0, Determinate, nodes[..i])|
    {
      var n := nodes[i];
      assert selector(n.labels) <==> InScope(p, n);
      SelectedStep(p, nodes, i);
      NamesStep(m0, ScopedOut, nodes, i);
      NamesStep(m0, Matched, nodes, i);
      NamesStep(m0, Determinate, nodes, i);
      if !selector(n.labels) {
        if n.hasTaint {
          scopedOutTainted := scopedOutTainted + [n.name];
        }
      } else {
        var matches := n.condition.status == p.conditionStatus;
        if matches {
          matchedCount := matchedCount + 1;
        }
        if matches || (n.condition.status != STATUS_UNKNOWN && n.condition.status != STATUS_UNREPORTED) {
          determinateCount := determinateCount + 1;
        }
        selected := selected + [Evaluated(n, matches)];
      }
    }
    assert nodes[..|nodes|] == nodes;
  }

  /** Second loop: report on each selected node and sort it into at most one action. */
  method Decide(p: Policy, nodes: seq<NodeFact>, now: int) returns (d: Decision)
    ensures d == DecisionFor(p, nodes, now)
  {
    var selected, scopedOutTainted, matchedCount, determinateCount := SelectNodes(p, nodes);
    var guardTripped := determinateCount > 0 && matchedCount * 100 > p.maxAffectedPercent * determinateCount;

    ghost var m := MomentOf(p, nodes, now);
    ghost var s := SelectedFacts(p, nodes);
    assert guardTripped == m.tripped;
    ghost var d0 := Undecided(guardTripped, scopedOutTainted, determinateCount);
    d := Decision([], scopedOutTainted, [], 0, Status([], [], [], [], [], guardTripped, determinateCount));
    for j := 0 to |selected|
      invariant d == Tally(m, d0, s[..j])
    {
      TallyStep(m, d0, s, j);
      d := ReportNode(p, guardTripped, now, selected[j], d);
    }
    assert s[..|selected|] == s;
    TallyLists(m, scopedOutTainted, determinateCount, s);
    ScanDone(m, nodes);
  }

  /** The body of the second loop. */
  method ReportNode(p: Policy, guardTripped: bool, now: int, e: Evaluated, d0: Decision) returns (d: Decision)
    requires InScope(p, e.fact) && e.matches == Matches(p, e.fact)
    ensures d == Report(Moment(p, guardTripped, now), d0, e.fact)
  {
    var n := e.fact;
    d := d0.(status := d0.status.(selectedNodes := d0.status.selectedNodes + [n.name]));
    if n.hasTaint {
      d := d.(status := d.status.(remediatedNodes := d.status.remediatedNodes + [n.name]));
    }
    var noTimestamp := n.condition.lastTransition.None?;
    var stableFor := if noTimestamp then 0 else now - n.condition.lastTransition.value;
    if e.matches {
      d := d.(status := d.status.(matchedNodes := d.status.matchedNodes + [n.name]));
      if n.hasTaint {
        return;
      }
      if noTimestamp {
        d := d.(heldMissingTimestamp := d.heldMissingTimestamp + [n.name]);
        return;
      }
      d := d.(status := d.status.(pendingNodes := d.status.pendingNodes + [n.name]));
      if guardTripped {
        return;
      }
      if stableFor >= p.debounceEnter {
        d := d.(applyTaint := d.applyTaint + [n.name]);
      } else {
        d := d.(requeueAfter := MinPositive(d.requeueAfter, p.debounceEnter - stableFor));
      }
    } else if n.condition.status == STATUS_UNKNOWN || n.condition.status == STATUS_UNREPORTED {
      d := d.(status := d.status.(unknownNodes := d.status.unknownNodes + [n.name]));
    } else if n.hasTaint {
      if noTimestamp {
        d := d.(heldMissingTimestamp := d.heldMissingTimestamp + [n.name]);
        return;
      }
      if stableFor >= p.debounceExit {
        d := d.(removeTaint := d.removeTaint + [n.name]);
      } else {
        d := d.(requeueAfter := MinPositive(d.requeueAfter, p.debounceExit - stableFor));
      }
    }
  }

  /** What one selected node adds to a decision. */
  function Report(m: Moment, d: Decision, n: NodeFact): Decision
  {
    Decision(
      Extend(d.applyTaint, Belongs(m, Applying, n), n.name),
      Extend(d.removeTaint, Belongs(m, Removing, n), n.name),
      Extend(d.heldMissingTimestamp, Belongs(m, Held, n), n.name),
      if Belongs(m, Waiting, n) then MinPositive(d.requeueAfter, Due(m.policy, n) - m.now) else d.requeueAfter,
      Status(
        Extend(d.status.selectedNodes, Belongs(m, Selected, n), n.name),
        Extend(d.status.matchedNodes, Belongs(m, Matched, n), n.name),
        Extend(d.status.pendingNodes, Belongs(m, Pending, n), n.name),
        Extend(d.status.unknownNodes, Belongs(m, Unknown, n), n.name),
        Extend(d.status.remediatedNodes, Belongs(m, Remediated, n), n.name),
        d.status.guardTripped,
        d.status.determinateCount))
  }

  /** Every node of `s` reported in turn, starting from a decision `d0`. */
  function Tally(m: Moment, d0: Decision, s: seq<NodeFact>): Decision
  {
    if s == [] then d0 else Report(m, Tally(m, d0, s[..|s| - 1]), s[|s| - 1])
  }

  lemma TallyStep(m: Moment, d0: Decision, s: seq<NodeFact>, j: nat)
    requires j < |s|
    ensures Tally(m, d0, s[..j + 1]) == Report(m, Tally(m, d0, s[..j]), s[j])
  {
    assert s[..j + 1][..j] == s[..j];
  }

  /** Reporting node by node fills every list with its whole group. */
  lemma {:induction false} TallyLists(m: Moment, scopedOut: seq<string>, determinate: nat, s: seq<NodeFact>)
    ensures Tally(m, Undecided(m.tripped, scopedOut, determinate), s) ==
            Decision(Names(m, Applying, s), scopedOut + Names(m, Removing, s), Names(m, Held, s), LeastWait(m, s),
              Status(Names(m, Selected, s), Names(m, Matched, s), Names(m, Pending, s), Names(m, Unknown, s),
                Names(m, Remediated, s), m.tripped, determinate))
  {
    if s == [] {
      assert scopedOut + [] == scopedOut;
    } else {
      var last := |s| - 1;
      TallyLists(m, scopedOut, determinate, s[..last]);
      assert scopedOut + Extend(Names(m, Removing, s[..last]), Belongs(m, Removing, s[last]), s[last].name)
          == Extend(scopedOut + Names(m, Removing, s[..last]), Belongs(m, Removing, s[last]), s[last].name);
    }
  }

  /** The decision before any selected node is looked at: the scoped-out removals only. */
  function Undecided(tripped: bool, scopedOut: seq<string>, determinate: nat): Decision
  {
    Decision([], scopedOut, [], 0, Status([], [], [], [], [], tripped, determinate))
  }

  lemma ScanDone(m: Moment, nodes: seq<NodeFact>)
    ensures forall g: Group :: g != ScopedOut ==> Names(m, g, SelectedFacts(m.policy, nodes)) == Names(m, g, nodes)
    ensures LeastWait(m, SelectedFacts(m.policy, nodes)) == LeastWait(m, nodes)
    ensures Names(m, ScopedOut, nodes) == Names(Moment(m.policy, false, 0), ScopedOut, nodes)
  {
    forall g: Group | g != ScopedOut ensures Names(m, g, SelectedFacts(m.policy, nodes)) == Names(m, g, nodes) {
      SelectedSuffices(m, g, nodes);
    }
    SelectedWaits(m, nodes);
    NamesAgree(m, Moment(m.policy, false, 0), ScopedOut, nodes);
  }
}
