/**
 What a pass leaves behind: seen through the policy's key, enacting a decision on the store is the edit of
 the facts that module Convergence reasons about, with lost replies and failed calls accounted for.
 */
module Acting {
  import opened Domain
  import opened Remediation
  import opened DecisionLaws
  import opened TaintList
  import opened TaintPatch
  import opened Shell
  import opened Convergence

  /** The same nodes with the taint bits of the store. */
  function Looked(nodes: seq<NodeFact>, s: Store, key: string): (r: seq<NodeFact>)
    ensures |r| == |nodes|
    ensures forall i :: 0 <= i < |nodes| ==> r[i] == nodes[i].(hasTaint := Carries(s, key, nodes[i].name))
  {
    seq(|nodes|, i requires 0 <= i < |nodes| => nodes[i].(hasTaint := Carries(s, key, nodes[i].name)))
  }

  /** Other clients' writes leave it as it was which nodes carry the key; anything else they may do. */
  ghost predicate KeyKept(s: Store, ws: seq<ForeignWrite>, key: string)
  {
    forall n :: Carries(PerformAll(s, ws), key, n) <==> Carries(s, key, n)
  }

  ghost predicate KeyKeptAround(s: Store, names: seq<string>, op: TaintOp, around: Surroundings)
  {
    names == [] || (
      var front, name := names[..|names| - 1], names[|names| - 1];
      var before := CallAll(s, front, op, around).store;
      && KeyKeptAround(s, front, op, around)
      && KeyKept(before, Retrying(before, name, op, around(name)).foreign, op.Key()))
  }

  /** The key on a node may only move the way the edit points, and has arrived there if no error is reported. */
  predicate MovedTowards(op: TaintOp, before: bool, after: bool, listed: bool, failed: bool)
  {
    && (!listed ==> after == before)
    && (op.Ensure? && before ==> after)
    && (op.Remove? && after ==> before)
    && (listed && !failed ==> after == op.Ensure?)
  }

  lemma CallMoves(s: Store, name: string, op: TaintOp, attempts: seq<Attempt>, n: string)
    requires Sound(s) && attempts != [] && KeyKept(s, Retrying(s, name, op, attempts).foreign, op.Key())
    ensures
      var c := Retrying(s, name, op, attempts);
      && Sound(c.store)
      && MovedTowards(op, Carries(s, op.Key(), n), Carries(c.store, op.Key(), n), n == name, c.error.Some?)
  {
    var c := Retrying(s, name, op, attempts);
    Linearizable(s, name, op, attempts);
    NoLostUpdate(s, name, op, attempts, n);
    var alone := PerformAll(s, c.foreign);
    assert Carries(alone, op.Key(), n) <==> Carries(s, op.Key(), n);
    if name in alone.nodes {
      UpdatedEffect(op, alone.nodes[name].taints);
    }
  }

  lemma KeptLast(s: Store, names: seq<string>, op: TaintOp, around: Surroundings)
    requires names != [] && KeyKeptAround(s, names, op, around)
    ensures
      var front, name := names[..|names| - 1], names[|names| - 1];
      var before := CallAll(s, front, op, around).store;
      KeyKeptAround(s, front, op, around) && KeyKept(before, Retrying(before, name, op, around(name)).foreign, op.Key())
  {
  }

  lemma OneMoreMove(op: TaintOp, listed: bool, failed: bool, last: bool, error: bool,
                    before: bool, mid: bool, after: bool)
    requires MovedTowards(op, before, mid, listed, failed) && MovedTowards(op, mid, after, last, error)
    ensures MovedTowards(op, before, after, listed || last, failed || (last && error))
  {
  }

  lemma {:induction false} BatchMoves(s: Store, names: seq<string>, op: TaintOp, around: Surroundings, n: string)
    requires Sound(s) && KeyKeptAround(s, names, op, around)
    ensures
      var b := CallAll(s, names, op, around);
      && Sound(b.store)
      && MovedTowards(op, Carries(s, op.Key(), n), Carries(b.store, op.Key(), n), n in names, n in b.failed)
  {
    if names != [] {
      var front, name := names[..|names| - 1], names[|names| - 1];
      KeptLast(s, names, op, around);
      LastCall(s, names, op, around, n);
      BatchMoves(s, front, op, around, n);
      var b := CallAll(s, front, op, around);
      CallMoves(b.store, name, op, around(name), n);
      var c := Retrying(b.store, name, op, around(name));
      OneMoreMove(op, n in front, n in b.failed, n == name, c.error.Some?,
        Carries(s, op.Key(), n), Carries(b.store, op.Key(), n), Carries(c.store, op.Key(), n));
    }
  }

  /** No node is on both lists, as for every decision about nodes with distinct names. */
  predicate OneListEach(d: Decision)
  {
    forall x :: x in d.applyTaint ==> x !in d.removeTaint
  }

  /** The store after the act loop and the calls that failed. */
  function Acted(s: Store, d: Decision, taint: Taint, around: Surroundings): (Store, seq<string>)
  {
    var a := CallAll(s, d.applyTaint, Ensure(taint), around);
    var r := CallAll(a.store, d.removeTaint, Remove(taint.key), around);
    (r.store, a.failed + r.failed)
  }

  ghost predicate Undisturbed(s: Store, d: Decision, taint: Taint, around: Surroundings)
  {
    && KeyKeptAround(s, d.applyTaint, Ensure(taint), around)
    && KeyKeptAround(CallAll(s, d.applyTaint, Ensure(taint), around).store, d.removeTaint, Remove(taint.key), around)
  }

  /** The nodes whose write took effect, acknowledged or not. */
  function Reached(names: seq<string>, s: Store, key: string, carries: bool): set<string>
  {
    set x | x in names && Carries(s, key, x) == carries
  }

  lemma ActMoves(s: Store, d: Decision, taint: Taint, around: Surroundings, n: string)
    requires Sound(s) && OneListEach(d) && Undisturbed(s, d, taint, around)
    ensures
      var (after, failed) := Acted(s, d, taint, around);
      && Carries(after, taint.key, n) ==
           (n in Reached(d.applyTaint, after, taint.key, true)
             || (Carries(s, taint.key, n) && n !in Reached(d.removeTaint, after, taint.key, false)))
      && (n in d.applyTaint ==> n in failed || n in Reached(d.applyTaint, after, taint.key, true))
      && (n in d.removeTaint ==> n in failed || n in Reached(d.removeTaint, after, taint.key, false))
  {
    var a := CallAll(s, d.applyTaint, Ensure(taint), around);
    BatchMoves(s, d.applyTaint, Ensure(taint), around, n);
    BatchMoves(a.store, d.removeTaint, Remove(taint.key), around, n);
  }

  /**
   The act loop is the abstract edit: looking at the store afterwards shows the facts of before, edited on
   the nodes whose write took effect; those are all the listed ones except some whose call failed.
   */
  lemma ActIsEnact(nodes: seq<NodeFact>, s: Store, d: Decision, taint: Taint, around: Surroundings)
    requires Sound(s) && OneListEach(d) && Undisturbed(s, d, taint, around)
    ensures
      var (after, failed) := Acted(s, d, taint, around);
      var applied := Reached(d.applyTaint, after, taint.key, true);
      var removed := Reached(d.removeTaint, after, taint.key, false);
      && Looked(nodes, after, taint.key) == Enact(Looked(nodes, s, taint.key), applied, removed)
      && PartOf(applied, d.applyTaint) && PartOf(removed, d.removeTaint)
      && (forall x :: x in d.applyTaint ==> x in failed || x in applied)
      && (forall x :: x in d.removeTaint ==> x in failed || x in removed)
  {
    forall x: string
      ensures
        var (after, failed) := Acted(s, d, taint, around);
        && Carries(after, taint.key, x) ==
             (x in Reached(d.applyTaint, after, taint.key, true)
               || (Carries(s, taint.key, x) && x !in Reached(d.removeTaint, after, taint.key, false)))
        && (x in d.applyTaint ==> x in failed || x in Reached(d.applyTaint, after, taint.key, true))
        && (x in d.removeTaint ==> x in failed || x in Reached(d.removeTaint, after, taint.key, false))
    {
      ActMoves(s, d, taint, around, x);
    }
  }

  /**
   What the next look at the cluster decides: exactly the writes that did not take effect are due again,
   in order; each of them was reported failed, and after a pass without failures none is left.
   */
  lemma NextDecision(p: Policy, nodes: seq<NodeFact>, now: int, s: Store, around: Surroundings)
    requires DistinctNames(nodes) && Sound(s) && nodes == Looked(nodes, s, p.taint.key)
    requires Undisturbed(s, DecisionFor(p, nodes, now), p.taint, around)
    ensures
      var d := DecisionFor(p, nodes, now);
      var (after, failed) := Acted(s, d, p.taint, around);
      var e := DecisionFor(p, Looked(nodes, after, p.taint.key), now);
      && e.applyTaint == Without(d.applyTaint, Reached(d.applyTaint, after, p.taint.key, true))
      && e.removeTaint == Without(d.removeTaint, Reached(d.removeTaint, after, p.taint.key, false))
      && (forall x :: x in e.applyTaint + e.removeTaint ==> x in failed)
  {
    var d := DecisionFor(p, nodes, now);
    var (after, failed) := Acted(s, d, p.taint, around);
    var applied := Reached(d.applyTaint, after, p.taint.key, true);
    var removed := Reached(d.removeTaint, after, p.taint.key, false);
    forall x | x in d.applyTaint ensures x !in d.removeTaint {
      ActionsAreExclusive(p, nodes, now, x);
    }
    ActIsEnact(nodes, s, d, p.taint, around);
    Residual(p, nodes, now, applied, removed);
    forall x ensures x in Without(d.applyTaint, applied) ==> x in d.applyTaint && x !in applied {
      WithoutMember(d.applyTaint, applied, x);
    }
    forall x ensures x in Without(d.removeTaint, removed) ==> x in d.removeTaint && x !in removed {
      WithoutMember(d.removeTaint, removed, x);
    }
  }

  /** And it reports as remediated every node whose apply did not fail. */
  lemma AppliedIsReported(p: Policy, nodes: seq<NodeFact>, now: int, s: Store, around: Surroundings, x: string)
    requires DistinctNames(nodes) && Sound(s)
    requires Undisturbed(s, DecisionFor(p, nodes, now), p.taint, around)
    requires x in DecisionFor(p, nodes, now).applyTaint
    requires x !in Acted(s, DecisionFor(p, nodes, now), p.taint, around).1
    ensures
      var (after, _) := Acted(s, DecisionFor(p, nodes, now), p.taint, around);
      x in DecisionFor(p, Looked(nodes, after, p.taint.key), now).status.remediatedNodes
  {
    var d := DecisionFor(p, nodes, now);
    var (after, _) := Acted(s, d, p.taint, around);
    forall y | y in d.applyTaint ensures y !in d.removeTaint {
      ActionsAreExclusive(p, nodes, now, y);
    }
    ActMoves(s, d, p.taint, around, x);
    var i := NodeOf(MomentOf(p, nodes, now), Applying, nodes, x);
    ListsAreExact(p, Looked(nodes, after, p.taint.key), now, i);
  }

  lemma {:induction false} WithoutMember(names: seq<string>, gone: set<string>, x: string)
    ensures x in Without(names, gone) <==> x in names && x !in gone
  {
    if names != [] {
      WithoutMember(names[..|names| - 1], gone, x);
      assert names == names[..|names| - 1] + [names[|names| - 1]];
    }
  }
}
