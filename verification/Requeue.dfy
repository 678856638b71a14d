/** The requeue delay is exact: nothing changes before it, something becomes due at it, and none means never. */
module Requeue {
  import opened Remediation
  import opened DecisionLaws

  lemma LeastWaitDetermined(m: Moment, nodes: seq<NodeFact>, r: int)
    requires IsLeastWait(m, nodes, r) && r >= 0
    ensures r == LeastWait(m, nodes)
  {
    LeastWaitIsLeast(m, nodes);
  }

  /** Until the requeue, time decides nothing new; the remaining delay just counts down. */
  lemma StableUntilRequeue(p: Policy, nodes: seq<NodeFact>, now: int, t: int)
    requires now <= t
    requires var r := DecisionFor(p, nodes, now).requeueAfter; r == 0 || t < now + r
    ensures
      var d := DecisionFor(p, nodes, now);
      DecisionFor(p, nodes, t) == d.(requeueAfter := if d.requeueAfter == 0 then 0 else now + d.requeueAfter - t)
  {
    var m, o := MomentOf(p, nodes, now), MomentOf(p, nodes, t);
    NobodyBecomesDue(m, o, nodes);
    NamesAgree(m, o, Applying, nodes);
    NamesAgree(m, o, Removing, nodes);
    NamesAgree(m, o, ScopedOut, nodes);
    NamesAgree(m, o, Held, nodes);
    StatusListsAgree(m, o, nodes);
  }

  lemma NotYetDue(m: Moment, o: Moment, n: NodeFact)
    requires o == m.(now := o.now) && m.now <= o.now
    requires Belongs(m, Waiting, n) ==> o.now < Due(m.policy, n)
    ensures Belongs(m, Waiting, n) <==> Belongs(o, Waiting, n)
    ensures Belongs(m, Applying, n) <==> Belongs(o, Applying, n)
    ensures Belongs(m, Removing, n) <==> Belongs(o, Removing, n)
  {
  }

  lemma NobodyBecomesDue(m: Moment, o: Moment, nodes: seq<NodeFact>)
    requires o == m.(now := o.now) && m.now <= o.now
    requires LeastWait(m, nodes) == 0 || o.now < m.now + LeastWait(m, nodes)
    ensures forall n :: n in nodes ==> (Belongs(m, Waiting, n) <==> Belongs(o, Waiting, n))
    ensures forall n :: n in nodes ==> (Belongs(m, Applying, n) <==> Belongs(o, Applying, n))
    ensures forall n :: n in nodes ==> (Belongs(m, Removing, n) <==> Belongs(o, Removing, n))
    ensures LeastWait(o, nodes) == if LeastWait(m, nodes) == 0 then 0 else m.now + LeastWait(m, nodes) - o.now
  {
    var r := LeastWait(m, nodes);
    LeastWaitIsLeast(m, nodes);
    forall n | n in nodes
      ensures Belongs(m, Waiting, n) <==> Belongs(o, Waiting, n)
      ensures Belongs(m, Applying, n) <==> Belongs(o, Applying, n)
      ensures Belongs(m, Removing, n) <==> Belongs(o, Removing, n)
    {
      NotYetDue(m, o, n);
    }
    LeastWaitDetermined(o, nodes, if r == 0 then 0 else m.now + r - o.now);
  }

  lemma {:induction false} FewerNames(m: Moment, o: Moment, g: Group, nodes: seq<NodeFact>, i: nat)
    requires i < |nodes| && Belongs(m, g, nodes[i]) && !Belongs(o, g, nodes[i])
    requires forall n :: n in nodes && Belongs(o, g, n) ==> Belongs(m, g, n)
    ensures |Names(o, g, nodes)| < |Names(m, g, nodes)|
  {
    var last := |nodes| - 1;
    if i < last {
      FewerNames(m, o, g, nodes[..last], i);
    } else {
      NoMoreNames(m, o, g, nodes[..last]);
    }
  }

  lemma {:induction false} NoMoreNames(m: Moment, o: Moment, g: Group, nodes: seq<NodeFact>)
    requires forall n :: n in nodes && Belongs(o, g, n) ==> Belongs(m, g, n)
    ensures |Names(o, g, nodes)| <= |Names(m, g, nodes)|
  {
    if nodes != [] {
      NoMoreNames(m, o, g, nodes[..|nodes| - 1]);
    }
  }

  function WaitingCount(p: Policy, nodes: seq<NodeFact>, now: int): nat
  {
    |Names(MomentOf(p, nodes, now), Waiting, nodes)|
  }

  /** At the requeue a waiting node becomes actionable, and fewer nodes are left waiting. */
  lemma FiresAtRequeue(p: Policy, nodes: seq<NodeFact>, now: int)
    requires DecisionFor(p, nodes, now).requeueAfter != 0
    ensures
      var at := now + DecisionFor(p, nodes, now).requeueAfter;
      var m, o := MomentOf(p, nodes, now), MomentOf(p, nodes, at);
      && (exists i :: 0 <= i < |nodes| && Belongs(m, Waiting, nodes[i])
            && (Belongs(o, Applying, nodes[i]) || Belongs(o, Removing, nodes[i])))
      && WaitingCount(p, nodes, at) < WaitingCount(p, nodes, now)
  {
    var at := now + DecisionFor(p, nodes, now).requeueAfter;
    var m, o := MomentOf(p, nodes, now), MomentOf(p, nodes, at);
    LeastWaitIsLeast(m, nodes);
    var n :| n in nodes && Belongs(m, Waiting, n) && LeastWait(m, nodes) == Due(p, n) - now;
    var i :| 0 <= i < |nodes| && nodes[i] == n;
    BecomesDue(m, o, n);
    FewerNames(m, o, Waiting, nodes, i);
  }

  lemma BecomesDue(m: Moment, o: Moment, n: NodeFact)
    requires o == m.(now := o.now) && Belongs(m, Waiting, n) && Due(m.policy, n) == o.now
    ensures !Belongs(o, Waiting, n) && (Belongs(o, Applying, n) || Belongs(o, Removing, n))
  {
  }

  /** The instants at which a policy wakes up if every pass honours its requeue and nothing else changes. */
  function Wakeups(p: Policy, nodes: seq<NodeFact>, now: int): (w: seq<int>)
    ensures 1 <= |w| <= 1 + WaitingCount(p, nodes, now)
    ensures w[0] == now
    decreases WaitingCount(p, nodes, now)
  {
    var r := DecisionFor(p, nodes, now).requeueAfter;
    if r == 0 then [now]
    else
      FiresAtRequeue(p, nodes, now);
      [now] + Wakeups(p, nodes, now + r)
  }

  /** `w[i]` is the latest wake-up up to `t`. */
  predicate Latest(w: seq<int>, i: int, t: int)
  {
    0 <= i < |w| && w[i] <= t && (i + 1 < |w| ==> t < w[i + 1])
  }

  /** Waking up only at those instants misses nothing: at any time the decision is that of the latest one. */
  lemma {:induction false} WakeupsSuffice(p: Policy, nodes: seq<NodeFact>, now: int, t: int) returns (i: nat)
    requires now <= t
    ensures Latest(Wakeups(p, nodes, now), i, t)
    ensures DecisionFor(p, nodes, t).(requeueAfter := 0)
         == DecisionFor(p, nodes, Wakeups(p, nodes, now)[i]).(requeueAfter := 0)
    decreases WaitingCount(p, nodes, now)
  {
    var r := DecisionFor(p, nodes, now).requeueAfter;
    if r == 0 || t < now + r {
      StableUntilRequeue(p, nodes, now, t);
      i := 0;
    } else {
      FiresAtRequeue(p, nodes, now);
      var k := WakeupsSuffice(p, nodes, now + r, t);
      i := k + 1;
    }
  }
}
