/**
 Deciding, acting and waking up together: while labels and conditions stay as they are, views are current and
 writes succeed, the chain of acting passes ends, and leaves the taint exactly where the conditions want it.
 */
module Settling {
  import opened Remediation
  import opened DecisionLaws
  import opened Requeue
  import opened Convergence

  /** The facts after a pass all of whose writes went through. */
  function Acted(p: Policy, nodes: seq<NodeFact>, now: int): (r: seq<NodeFact>)
    ensures |r| == |nodes|
  {
    var d := DecisionFor(p, nodes, now);
    Enact(nodes, set x | x in d.applyTaint, set x | x in d.removeTaint)
  }

  /** Acting moves the taint only: it changes neither the guard nor who waits, nor how long. */
  lemma ActingKeepsWaiting(p: Policy, nodes: seq<NodeFact>, now: int)
    requires DistinctNames(nodes)
    ensures
      var left := Acted(p, nodes, now);
      && Tripped(p, left) == Tripped(p, nodes)
      && WaitingCount(p, left, now) == WaitingCount(p, nodes, now)
      && DecisionFor(p, left, now).requeueAfter == DecisionFor(p, nodes, now).requeueAfter
  {
    var d := DecisionFor(p, nodes, now);
    var applied, removed := set x | x in d.applyTaint, set x | x in d.removeTaint;
    var left, m := Acted(p, nodes, now), MomentOf(p, nodes, now);
    GuardIgnoresTaints(p, nodes, left);
    forall i | 0 <= i < |nodes|
      ensures nodes[i].name == left[i].name && (Belongs(m, Waiting, nodes[i]) <==> Belongs(m, Waiting, left[i]))
    {
      EnactedNode(p, nodes, now, applied, removed, i);
    }
    NamesAlike(m, nodes, m, left, Waiting);
    Residual(p, nodes, now, applied, removed);
  }

  lemma FewerWaiting(p: Policy, nodes: seq<NodeFact>, now: int)
    requires DistinctNames(nodes) && DecisionFor(p, nodes, now).requeueAfter != 0
    ensures WaitingCount(p, Acted(p, nodes, now), now + DecisionFor(p, nodes, now).requeueAfter)
          < WaitingCount(p, nodes, now)
  {
    ActingKeepsWaiting(p, nodes, now);
    FiresAtRequeue(p, Acted(p, nodes, now), now);
  }

  /** One pass of the chain: when it ran and the facts it left. */
  datatype Wake = Wake(at: int, left: seq<NodeFact>)

  /** Every pass acts and asks to be woken for the next node that becomes due, until none waits. */
  function Chain(p: Policy, nodes: seq<NodeFact>, now: int): (w: seq<Wake>)
    requires DistinctNames(nodes)
    ensures 1 <= |w| <= 1 + WaitingCount(p, nodes, now)
    ensures w[0].at == now
    decreases WaitingCount(p, nodes, now)
  {
    var left := Acted(p, nodes, now);
    var r := DecisionFor(p, nodes, now).requeueAfter;
    if r == 0 then [Wake(now, left)]
    else
      FewerWaiting(p, nodes, now);
      [Wake(now, left)] + Chain(p, left, now + r)
  }

  // ----- nothing is due between the passes

  predicate NothingDue(d: Decision)
  {
    d.applyTaint == [] && d.removeTaint == []
  }

  /** At `t` nothing is due on the facts the pass left. */
  predicate LeftQuiet(p: Policy, w: Wake, t: int)
  {
    NothingDue(DecisionFor(p, w.left, t))
  }

  /** `w[i]` is the latest pass up to `t`. */
  predicate LatestPass(w: seq<Wake>, i: int, t: int)
  {
    0 <= i < |w| && w[i].at <= t && (i + 1 < |w| ==> t < w[i + 1].at)
  }

  lemma QuietUntilRequeue(p: Policy, nodes: seq<NodeFact>, now: int, t: int)
    requires DistinctNames(nodes) && now <= t
    requires var r := DecisionFor(p, nodes, now).requeueAfter; r == 0 || t < now + r
    ensures NothingDue(DecisionFor(p, Acted(p, nodes, now), t))
  {
    ActingKeepsWaiting(p, nodes, now);
    Converges(p, nodes, now);
    StableUntilRequeue(p, Acted(p, nodes, now), now, t);
  }

  lemma ChainStep(p: Policy, nodes: seq<NodeFact>, now: int)
    requires DistinctNames(nodes) && DecisionFor(p, nodes, now).requeueAfter != 0
    ensures
      var left, later := Acted(p, nodes, now), now + DecisionFor(p, nodes, now).requeueAfter;
      DistinctNames(left) && Chain(p, nodes, now) == [Wake(now, left)] + Chain(p, left, later)
  {
    FewerWaiting(p, nodes, now);
  }

  /** Every time from the first pass on has a latest pass. */
  lemma {:induction false} SomeLatestPass(w: seq<Wake>, t: int) returns (i: int)
    requires w != [] && w[0].at <= t
    ensures LatestPass(w, i, t)
  {
    var front := w[..|w| - 1];
    if w[|w| - 1].at <= t {
      i := |w| - 1;
    } else {
      i := SomeLatestPass(front, t);
    }
  }

  /** Whoever is latest after the first pass is latest among the later ones. */
  lemma LaterPass(w: seq<Wake>, first: Wake, rest: seq<Wake>, i: int, t: int)
    requires w == [first] + rest && LatestPass(w, i, t) && i > 0
    ensures LatestPass(rest, i - 1, t) && w[i] == rest[i - 1]
  {
    assert i + 1 < |w| ==> w[i + 1] == rest[i];
  }

  lemma QuietAfterFirst(p: Policy, nodes: seq<NodeFact>, now: int, t: int)
    requires DistinctNames(nodes) && LatestPass(Chain(p, nodes, now), 0, t)
    ensures LeftQuiet(p, Chain(p, nodes, now)[0], t)
  {
    if DecisionFor(p, nodes, now).requeueAfter != 0 {
      ChainStep(p, nodes, now);
    }
    QuietUntilRequeue(p, nodes, now, t);
  }

  /** From each pass to the next, and forever after the last, nothing is due on the facts the pass left. */
  lemma {:induction false} QuietBetweenPasses(p: Policy, nodes: seq<NodeFact>, now: int, i: int, t: int)
    requires DistinctNames(nodes) && LatestPass(Chain(p, nodes, now), i, t)
    ensures LeftQuiet(p, Chain(p, nodes, now)[i], t)
    decreases i
  {
    if i == 0 {
      QuietAfterFirst(p, nodes, now, t);
    } else {
      var left, later := LaterChain(p, nodes, now, i, t);
      QuietBetweenPasses(p, left, later, i - 1, t);
    }
  }

  /** The rest of the chain is the chain of what the first pass left. */
  lemma LaterChain(p: Policy, nodes: seq<NodeFact>, now: int, i: int, t: int)
    returns (left: seq<NodeFact>, later: int)
    requires DistinctNames(nodes) && LatestPass(Chain(p, nodes, now), i, t) && i > 0
    ensures DistinctNames(left)
    ensures LatestPass(Chain(p, left, later), i - 1, t) && Chain(p, nodes, now)[i] == Chain(p, left, later)[i - 1]
  {
    left, later := Acted(p, nodes, now), now + DecisionFor(p, nodes, now).requeueAfter;
    ChainStep(p, nodes, now);
    LaterPass(Chain(p, nodes, now), Wake(now, left), Chain(p, left, later), i, t);
  }

  // ----- where the taint ends up

  /**
   Whether the node carries the taint in the end: out of scope never; matched if it does already, or once it
   is dated and the guard lets it through; silent if it does already; cleared only as long as it is undated.
   */
  predicate Destined(p: Policy, tripped: bool, n: NodeFact)
  {
    if !InScope(p, n) then false
    else if Matches(p, n) then n.hasTaint || (Dated(n) && !tripped)
    else if Silent(n) then n.hasTaint
    else n.hasTaint && !Dated(n)
  }

  lemma ActedNode(p: Policy, nodes: seq<NodeFact>, now: int, i: nat)
    requires DistinctNames(nodes) && i < |nodes|
    ensures
      var m := MomentOf(p, nodes, now);
      var n := nodes[i];
      Acted(p, nodes, now)[i] == n.(hasTaint := Belongs(m, Applying, n)
        || (n.hasTaint && !Belongs(m, ScopedOut, n) && !Belongs(m, Removing, n)))
  {
    ListsAreExact(p, nodes, now, i);
  }

  /** No pass changes where a node is headed. */
  lemma DestinyStays(p: Policy, nodes: seq<NodeFact>, now: int, i: nat)
    requires DistinctNames(nodes) && i < |nodes|
    ensures Destined(p, Tripped(p, nodes), Acted(p, nodes, now)[i]) == Destined(p, Tripped(p, nodes), nodes[i])
  {
    ActedNode(p, nodes, now, i);
  }

  /** A dated node that nobody waits for has been moved where it is headed. */
  lemma NobodyWaits(m: Moment, n: NodeFact)
    requires !Belongs(m, Waiting, n)
    ensures (Belongs(m, Applying, n) || (n.hasTaint && !Belongs(m, ScopedOut, n) && !Belongs(m, Removing, n)))
         == Destined(m.policy, m.tripped, n)
  {
  }

  /** When nobody waits any more, every node has arrived. */
  lemma Arrived(p: Policy, nodes: seq<NodeFact>, now: int, i: nat)
    requires DistinctNames(nodes) && i < |nodes| && DecisionFor(p, nodes, now).requeueAfter == 0
    ensures Acted(p, nodes, now)[i].hasTaint == Destined(p, Tripped(p, nodes), nodes[i])
  {
    var m := MomentOf(p, nodes, now);
    ActedNode(p, nodes, now, i);
    LeastWaitIsLeast(m, nodes);
    assert nodes[i] in nodes;
    NobodyWaits(m, nodes[i]);
  }

  /**
   Settling: with fixed labels and conditions and successful writes, the last of at most one more than the
   waiting nodes' passes leaves the taint exactly on the nodes that the conditions destine for it.
   */
  lemma {:induction false} Settles(p: Policy, nodes: seq<NodeFact>, now: int, i: nat)
    requires DistinctNames(nodes) && i < |nodes|
    ensures
      var w := Chain(p, nodes, now);
      var settled := w[|w| - 1].left;
      |settled| == |nodes| && settled[i] == nodes[i].(hasTaint := Destined(p, Tripped(p, nodes), nodes[i]))
    decreases WaitingCount(p, nodes, now)
  {
    if DecisionFor(p, nodes, now).requeueAfter == 0 {
      ActedNode(p, nodes, now, i);
      Arrived(p, nodes, now, i);
    } else {
      var left, later := LastOfLater(p, nodes, now);
      Settles(p, left, later, i);
      SettlesEarlier(p, nodes, now, i);
    }
  }

  /** The last pass of the chain is the last one of the rest. */
  lemma LastOfLater(p: Policy, nodes: seq<NodeFact>, now: int) returns (left: seq<NodeFact>, later: int)
    requires DistinctNames(nodes) && DecisionFor(p, nodes, now).requeueAfter != 0
    ensures left == Acted(p, nodes, now) && DistinctNames(left)
    ensures WaitingCount(p, left, later) < WaitingCount(p, nodes, now)
    ensures var w, rest := Chain(p, nodes, now), Chain(p, left, later); w[|w| - 1] == rest[|rest| - 1]
  {
    left, later := Acted(p, nodes, now), now + DecisionFor(p, nodes, now).requeueAfter;
    FewerWaiting(p, nodes, now);
    ChainStep(p, nodes, now);
  }

  /** What is destined after the first pass is what was destined before it. */
  lemma SettlesEarlier(p: Policy, nodes: seq<NodeFact>, now: int, i: nat)
    requires DistinctNames(nodes) && i < |nodes|
    ensures
      var left := Acted(p, nodes, now);
      left[i].(hasTaint := Destined(p, Tripped(p, left), left[i]))
        == nodes[i].(hasTaint := Destined(p, Tripped(p, nodes), nodes[i]))
  {
    ActingKeepsWaiting(p, nodes, now);
    ActedNode(p, nodes, now, i);
    DestinyStays(p, nodes, now, i);
  }
}
