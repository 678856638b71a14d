/** What acting on a decision does to the next one, under partial failure and over whole runs. */
module Convergence {
  import opened Remediation
  import opened DecisionLaws

  /** The facts after the taint was written to `applied` and dropped from `removed`. */
  function Enact(nodes: seq<NodeFact>, applied: set<string>, removed: set<string>): (r: seq<NodeFact>)
    ensures |r| == |nodes|
    ensures forall i :: 0 <= i < |nodes| ==>
      r[i] == nodes[i].(hasTaint := nodes[i].name in applied || (nodes[i].hasTaint && nodes[i].name !in removed))
  {
    seq(|nodes|, i requires 0 <= i < |nodes| =>
      nodes[i].(hasTaint := nodes[i].name in applied || (nodes[i].hasTaint && nodes[i].name !in removed)))
  }

  /** The names not yet dealt with, in order. */
  function Without(names: seq<string>, gone: set<string>): seq<string>
  {
    if names == [] then []
    else Extend(Without(names[..|names| - 1], gone), names[|names| - 1] !in gone, names[|names| - 1])
  }

  lemma {:induction false} WithoutConcat(a: seq<string>, b: seq<string>, gone: set<string>)
    ensures Without(a + b, gone) == Without(a, gone) + Without(b, gone)
  {
    if b == [] {
      assert a + b == a;
    } else {
      var last := |b| - 1;
      WithoutConcat(a, b[..last], gone);
      assert (a + b)[..|a| + last] == a + b[..last];
    }
  }

  lemma {:induction false} WithoutMembers(names: seq<string>, gone: set<string>)
    ensures gone == {} ==> Without(names, gone) == names
    ensures (forall x :: x in names ==> x in gone) ==> Without(names, gone) == []
  {
    if names != [] {
      var last := |names| - 1;
      WithoutMembers(names[..last], gone);
      assert names == names[..last] + [names[last]];
    }
  }

  lemma {:induction false} NamesWithout(m: Moment, g: Group, a: seq<NodeFact>, b: seq<NodeFact>, gone: set<string>)
    requires |a| == |b|
    requires forall i :: 0 <= i < |a| ==>
      a[i].name == b[i].name && (Belongs(m, g, b[i]) <==> Belongs(m, g, a[i]) && a[i].name !in gone)
    ensures Names(m, g, b) == Without(Names(m, g, a), gone)
  {
    if a != [] {
      var last := |a| - 1;
      NamesWithout(m, g, a[..last], b[..last], gone);
      var names := Names(m, g, a[..last]);
      assert (names + [a[last].name])[..|names|] == names;
    }
  }

  lemma {:induction false} LeastWaitAlike(m: Moment, a: seq<NodeFact>, b: seq<NodeFact>)
    requires |a| == |b|
    requires forall i :: 0 <= i < |a| ==>
      && (Belongs(m, Waiting, a[i]) <==> Belongs(m, Waiting, b[i]))
      && (Belongs(m, Waiting, a[i]) ==> Due(m.policy, a[i]) == Due(m.policy, b[i]))
    ensures LeastWait(m, a) == LeastWait(m, b)
  {
    if a != [] {
      LeastWaitAlike(m, a[..|a| - 1], b[..|b| - 1]);
    }
  }

  /** A part of a list: the nodes whose write went through. */
  predicate PartOf(names: set<string>, list: seq<string>)
  {
    forall x :: x in names ==> x in list
  }

  lemma GuardIgnoresTaints(p: Policy, a: seq<NodeFact>, b: seq<NodeFact>)
    requires |a| == |b|
    requires forall i :: 0 <= i < |a| ==> b[i] == a[i].(hasTaint := b[i].hasTaint)
    ensures Tripped(p, a) == Tripped(p, b) && DeterminateCount(p, a) == DeterminateCount(p, b)
  {
    NamesAlike(Moment(p, false, 0), a, Moment(p, false, 0), b, Matched);
    NamesAlike(Moment(p, false, 0), a, Moment(p, false, 0), b, Determinate);
  }

  /** How enacting part of a decision moves one node between groups. */
  lemma EnactedNode(p: Policy, nodes: seq<NodeFact>, now: int, applied: set<string>, removed: set<string>, i: nat)
    requires DistinctNames(nodes) && i < |nodes|
    requires PartOf(applied, DecisionFor(p, nodes, now).applyTaint)
    requires PartOf(removed, DecisionFor(p, nodes, now).removeTaint)
    ensures
      var m := MomentOf(p, nodes, now);
      var n, e := nodes[i], Enact(nodes, applied, removed)[i];
      && (Belongs(m, Applying, e) <==> Belongs(m, Applying, n) && n.name !in applied)
      && (Belongs(m, Removing, e) <==> Belongs(m, Removing, n) && n.name !in removed)
      && (Belongs(m, ScopedOut, e) <==> Belongs(m, ScopedOut, n) && n.name !in removed)
      && (Belongs(m, Pending, e) <==> Belongs(m, Pending, n) && n.name !in applied)
      && (Belongs(m, Held, e) <==> Belongs(m, Held, n))
      && (Belongs(m, Waiting, e) <==> Belongs(m, Waiting, n))
  {
    ListsAreExact(p, nodes, now, i);
  }

  /**
   Deciding again after any part of a decision was enacted gives exactly the part that was not:
   same selection, matches, holds, guard and requeue, and the remaining applies and removes in order.
   */
  lemma Residual(p: Policy, nodes: seq<NodeFact>, now: int, applied: set<string>, removed: set<string>)
    requires DistinctNames(nodes)
    requires PartOf(applied, DecisionFor(p, nodes, now).applyTaint)
    requires PartOf(removed, DecisionFor(p, nodes, now).removeTaint)
    ensures
      var d := DecisionFor(p, nodes, now);
      var e := DecisionFor(p, Enact(nodes, applied, removed), now);
      && e.applyTaint == Without(d.applyTaint, applied)
      && e.removeTaint == Without(d.removeTaint, removed)
      && e.heldMissingTimestamp == d.heldMissingTimestamp
      && e.requeueAfter == d.requeueAfter
      && e.status.selectedNodes == d.status.selectedNodes
      && e.status.matchedNodes == d.status.matchedNodes
      && e.status.unknownNodes == d.status.unknownNodes
      && e.status.pendingNodes == Without(d.status.pendingNodes, applied)
      && e.status.guardTripped == d.status.guardTripped
      && e.status.determinateCount == d.status.determinateCount
  {
    var m := MomentOf(p, nodes, now);
    var after := Enact(nodes, applied, removed);
    GuardIgnoresTaints(p, nodes, after);
    forall i | 0 <= i < |nodes|
      ensures (Belongs(m, Applying, after[i]) <==> Belongs(m, Applying, nodes[i]) && nodes[i].name !in applied)
      ensures (Belongs(m, Removing, after[i]) <==> Belongs(m, Removing, nodes[i]) && nodes[i].name !in removed)
      ensures (Belongs(m, ScopedOut, after[i]) <==> Belongs(m, ScopedOut, nodes[i]) && nodes[i].name !in removed)
      ensures (Belongs(m, Pending, after[i]) <==> Belongs(m, Pending, nodes[i]) && nodes[i].name !in applied)
      ensures (Belongs(m, Held, after[i]) <==> Belongs(m, Held, nodes[i]))
      ensures (Belongs(m, Waiting, after[i]) <==> Belongs(m, Waiting, nodes[i]))
    {
      EnactedNode(p, nodes, now, applied, removed, i);
    }
    NamesWithout(m, Applying, nodes, after, applied);
    NamesWithout(m, Removing, nodes, after, removed);
    NamesWithout(m, ScopedOut, nodes, after, removed);
    WithoutConcat(Names(m, ScopedOut, nodes), Names(m, Removing, nodes), removed);
    NamesWithout(m, Pending, nodes, after, applied);
    NamesAlike(m, nodes, m, after, Held);
    LeastWaitAlike(m, nodes, after);
    NamesAlike(m, nodes, m, after, Selected);
    NamesAlike(m, nodes, m, after, Matched);
    NamesAlike(m, nodes, m, after, Unknown);
  }

  /** Full success leaves nothing to do, and the applied nodes are then reported as remediated. */
  lemma Converges(p: Policy, nodes: seq<NodeFact>, now: int)
    requires DistinctNames(nodes)
    ensures
      var d := DecisionFor(p, nodes, now);
      var e := DecisionFor(p, Enact(nodes, set x | x in d.applyTaint, set x | x in d.removeTaint), now);
      && e.applyTaint == [] && e.removeTaint == [] && e.requeueAfter == d.requeueAfter
      && forall x :: x in d.applyTaint ==> x in e.status.remediatedNodes
  {
    var d := DecisionFor(p, nodes, now);
    var applied, removed := set x | x in d.applyTaint, set x | x in d.removeTaint;
    var after := Enact(nodes, applied, removed);
    Residual(p, nodes, now, applied, removed);
    WithoutMembers(d.applyTaint, applied);
    WithoutMembers(d.removeTaint, removed);
    forall x | x in d.applyTaint ensures x in DecisionFor(p, after, now).status.remediatedNodes {
      var i := NodeOf(MomentOf(p, nodes, now), Applying, nodes, x);
      ListsAreExact(p, after, now, i);
    }
  }

  // ----- runs with fixed labels and conditions

  /**
   One pass of a run: its clock, the taint bits its possibly stale node list shows, and the nodes
   whose taint write fails.
   */
  datatype Pass = Pass(now: int, seen: seq<bool>, failing: set<string>)

  function SeenAs(nodes: seq<NodeFact>, seen: seq<bool>): (r: seq<NodeFact>)
    requires |seen| == |nodes|
    ensures |r| == |nodes|
    ensures forall i :: 0 <= i < |nodes| ==> r[i] == nodes[i].(hasTaint := seen[i])
  {
    seq(|nodes|, i requires 0 <= i < |nodes| => nodes[i].(hasTaint := seen[i]))
  }

  function AfterPass(p: Policy, nodes: seq<NodeFact>, pass: Pass): seq<NodeFact>
    requires |pass.seen| == |nodes|
  {
    var d := DecisionFor(p, SeenAs(nodes, pass.seen), pass.now);
    Enact(nodes,
      set x | x in d.applyTaint && x !in pass.failing,
      set x | x in d.removeTaint && x !in pass.failing)
  }

  predicate Observing(nodes: seq<NodeFact>, passes: seq<Pass>)
  {
    forall k :: 0 <= k < |passes| ==> |passes[k].seen| == |nodes|
  }

  function AfterPasses(p: Policy, nodes: seq<NodeFact>, passes: seq<Pass>): (r: seq<NodeFact>)
    requires Observing(nodes, passes)
    ensures |r| == |nodes|
    decreases |passes|
  {
    if passes == [] then nodes else AfterPasses(p, AfterPass(p, nodes, passes[0]), passes[1..])
  }

  /** Where node `n` may go on to: same facts, and a taint moved only the way its condition points. */
  predicate Onward(p: Policy, n: NodeFact, e: NodeFact)
  {
    && e == n.(hasTaint := e.hasTaint)
    && (if InScope(p, n) && Matches(p, n) then n.hasTaint ==> e.hasTaint else e.hasTaint ==> n.hasTaint)
  }

  lemma PassDirection(p: Policy, nodes: seq<NodeFact>, pass: Pass, i: nat)
    requires DistinctNames(nodes) && i < |nodes| && |pass.seen| == |nodes|
    ensures Onward(p, nodes[i], AfterPass(p, nodes, pass)[i])
  {
    ListsAreExact(p, SeenAs(nodes, pass.seen), pass.now, i);
  }

  lemma {:induction false} OneDirection(p: Policy, nodes: seq<NodeFact>, passes: seq<Pass>, i: nat)
    requires DistinctNames(nodes) && i < |nodes| && Observing(nodes, passes)
    ensures Onward(p, nodes[i], AfterPasses(p, nodes, passes)[i])
    decreases |passes|
  {
    if passes != [] {
      PassDirection(p, nodes, passes[0], i);
      OneDirection(p, AfterPass(p, nodes, passes[0]), passes[1..], i);
    }
  }

  lemma {:induction false} RunsCompose(p: Policy, nodes: seq<NodeFact>, a: seq<Pass>, b: seq<Pass>)
    requires Observing(nodes, a) && Observing(nodes, b)
    ensures Observing(nodes, a + b)
    ensures AfterPasses(p, nodes, a + b) == AfterPasses(p, AfterPasses(p, nodes, a), b)
    decreases |a|
  {
    if a == [] {
      assert a + b == b;
    } else {
      assert (a + b)[1..] == a[1..] + b && (a + b)[0] == a[0];
      assert Observing(nodes, a + b);
      RunsCompose(p, AfterPass(p, nodes, a[0]), a[1..], b);
    }
  }

  /** Whether node `i` carries the taint after the first `k` passes. */
  predicate TaintedAfter(p: Policy, nodes: seq<NodeFact>, passes: seq<Pass>, k: nat, i: nat)
    requires i < |nodes| && Observing(nodes, passes) && k <= |passes|
  {
    AfterPasses(p, nodes, passes[..k])[i].hasTaint
  }

  lemma OneDirectionBetween(p: Policy, nodes: seq<NodeFact>, passes: seq<Pass>, j: nat, k: nat, i: nat)
    requires DistinctNames(nodes) && i < |nodes| && Observing(nodes, passes) && j <= k <= |passes|
    ensures if InScope(p, nodes[i]) && Matches(p, nodes[i])
            then TaintedAfter(p, nodes, passes, j, i) ==> TaintedAfter(p, nodes, passes, k, i)
            else TaintedAfter(p, nodes, passes, k, i) ==> TaintedAfter(p, nodes, passes, j, i)
  {
    assert passes[..k] == passes[..j] + passes[j..k];
    RunsCompose(p, nodes, passes[..j], passes[j..k]);
    var atJ := AfterPasses(p, nodes, passes[..j]);
    forall x | 0 <= x < |nodes| ensures atJ[x] == nodes[x].(hasTaint := atJ[x].hasTaint) {
      OneDirection(p, nodes, passes[..j], x);
    }
    OneDirection(p, atJ, passes[j..k], i);
  }

  /**
   No flapping: while labels and conditions stay fixed and only the operator writes its key, a node's
   taint never returns to a value it had left, whatever the clocks, stale views and write failures.
   */
  lemma NoFlapping(p: Policy, nodes: seq<NodeFact>, passes: seq<Pass>, j: nat, k: nat, l: nat, i: nat)
    requires DistinctNames(nodes) && i < |nodes| && Observing(nodes, passes)
    requires j <= k <= l <= |passes|
    requires TaintedAfter(p, nodes, passes, j, i) == TaintedAfter(p, nodes, passes, l, i)
    ensures TaintedAfter(p, nodes, passes, k, i) == TaintedAfter(p, nodes, passes, j, i)
  {
    OneDirectionBetween(p, nodes, passes, j, k, i);
    OneDirectionBetween(p, nodes, passes, k, l, i);
  }
}
