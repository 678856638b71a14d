/**
 The simpler models of a pass are views of the machine's pass: the one that module Convergence iterates and
 the one that module Churn follows for a single node.
 */
module PassModels {
  import opened Domain
  import opened Remediation
  import opened DecisionLaws
  import opened Observe
  import opened Fleet
  import opened OnePass
  import opened PassWants
  import Convergence
  import Churn

  /** The same nodes with the same labels and conditions; the taints may be old. */
  predicate OldTaints(view: map<string, Node>, nodes: map<string, Node>)
  {
    view.Keys == nodes.Keys
    && forall n :: n in nodes ==> view[n].labels == nodes[n].labels && view[n].conditions == nodes[n].conditions
  }

  /** The taint bits that a view shows. */
  function Bits(view: map<string, Node>, order: seq<string>, key: string): (r: seq<bool>)
    ensures |r| == |order|
  {
    seq(|order|, i requires 0 <= i < |order| => Carries(view, order[i], key))
  }

  /** The nodes that no write reached. */
  function Missed(s: State, d: Decision, replies: seq<Reply>): set<string>
    requires |replies| == |d.applyTaint| + |d.removeTaint|
  {
    set n | n in s.nodes && !Applied(d, replies, n) && !Removed(d, replies, n)
  }

  lemma SeenFacts(view: map<string, Node>, nodes: map<string, Node>, order: seq<string>, p: Policy)
    requires OldTaints(view, nodes) && Lists(order, nodes)
    ensures |Facts(Listed(nodes, order), p)| == |order|
    ensures Facts(Listed(view, order), p)
         == Convergence.SeenAs(Facts(Listed(nodes, order), p), Bits(view, order, p.taint.key))
  {
    FactsOfAll(view, order, p);
    FactsOfAll(nodes, order, p);
  }

  lemma MissedAreFailing(s: State, d: Decision, replies: seq<Reply>)
    requires |replies| == |d.applyTaint| + |d.removeTaint|
    requires forall x :: x in d.applyTaint ==> x in s.nodes && x !in d.removeTaint
    requires forall x :: x in d.removeTaint ==> x in s.nodes
    ensures AllApplied(d, replies) == set x | x in d.applyTaint && x !in Missed(s, d, replies)
    ensures AllRemoved(d, replies) == set x | x in d.removeTaint && x !in Missed(s, d, replies)
  {
  }

  lemma ListedNodesExist(p: Policy, nodes: map<string, Node>, order: seq<string>, now: int, x: string)
    requires Lists(order, nodes)
    ensures
      var d := DecisionFor(p, Facts(Listed(nodes, order), p), now);
      && (x in d.applyTaint ==> x in nodes && x !in d.removeTaint)
      && (x in d.removeTaint ==> x in nodes)
  {
    var facts := Facts(Listed(nodes, order), p);
    var m, d := MomentOf(p, facts, now), DecisionFor(p, facts, now);
    FactsOfAll(nodes, order, p);
    ActionsAreExclusive(p, facts, now, x);
    if x in d.applyTaint {
      var i := NodeOf(m, Applying, facts, x);
      assert facts[i].name == order[i];
    }
    if x in d.removeTaint {
      var i :| 0 <= i < |facts| && facts[i].name == x;
      assert facts[i].name == order[i];
    }
  }

  /** A pass of the machine that decides on an old view of the taints is the pass that module Convergence iterates. */
  lemma PassIsAfterPass(s: State, p: string, spec: PolicySpec, d: Decision, view: map<string, Node>,
                        order: seq<string>, now: int, replies: seq<Reply>, last: Reply)
    requires Decides(s, p, spec, d, Some(view), order, now, replies)
    requires Lists(order, s.nodes) && OldTaints(view, s.nodes)
    ensures
      var policy := ProjectPolicy(spec).value;
      var facts := Facts(Listed(s.nodes, order), policy);
      var s' := StateAfter(s, p, Some(view), order, now, replies, last);
      && |facts| == |order|
      && Facts(Listed(s'.nodes, order), policy) == Convergence.AfterPass(policy, facts,
           Convergence.Pass(now, Bits(view, order, policy.taint.key), Missed(s, d, replies)))
  {
    var policy := ProjectPolicy(spec).value;
    SeenFacts(view, s.nodes, order, policy);
    forall x ensures
      && (x in d.applyTaint ==> x in s.nodes && x !in d.removeTaint)
      && (x in d.removeTaint ==> x in s.nodes)
    {
      ListedNodesExist(policy, view, order, now, x);
    }
    MissedAreFailing(s, d, replies);
    PassIsEnact(s, p, spec, d, Some(view), order, now, replies, last);
  }

  /** And for one node it is the pass that module Churn follows; `wroteAt` says whether and when its write landed. */
  lemma PassIsTaintAfter(s: State, p: string, spec: PolicySpec, d: Decision, view: Option<map<string, Node>>,
                         order: seq<string>, now: int, replies: seq<Reply>, last: Reply, n: string,
                         seenAt: int, wroteAt: Option<int>)
    requires Decides(s, p, spec, d, view, order, now, replies) && Lists(order, Viewed(s, view)) && n in s.nodes
    requires wroteAt.Some? <==> Applied(d, replies, n) || Removed(d, replies, n)
    ensures
      var policy := ProjectPolicy(spec).value;
      var key := spec.taint.value.key;
      var pass := Churn.Pass(now, seenAt, Shown(s, view, order, policy), wroteAt);
      var s' := StateAfter(s, p, view, order, now, replies, last);
      Carries(s'.nodes, n, key) <==> Churn.TaintAfter(policy, n, Carries(s.nodes, n, key), pass)
  {
    var policy := ProjectPolicy(spec).value;
    var s' := StateAfter(s, p, view, order, now, replies, last);
    ListedNodesExist(policy, Viewed(s, view), order, now, n);
    PassEnacts(s, p, spec, d, view, order, now, replies, last, n);
    RewrittenCarries(s.nodes[n], s'.nodes[n], spec.taint.value, Applied(d, replies, n), Removed(d, replies, n));
  }
}
