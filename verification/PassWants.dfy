/**
 From the stored objects to the stored objects: an undisturbed pass leaves a policy's key exactly on the
 nodes that its spec wants, judged by the fields of the spec and the nodes alone.
 */
module PassWants {
  import opened Domain
  import opened Remediation
  import opened Convergence
  import opened DecisionLaws
  import opened TaintList
  import opened Observe
  import opened Fleet
  import opened OnePass

  /** A listing of all nodes, each once. */
  ghost predicate Lists(order: seq<string>, nodes: map<string, Node>)
  {
    && (forall n :: n in nodes <==> n in order)
    && (forall i, j :: 0 <= i < j < |order| ==> order[i] != order[j])
  }

  lemma {:induction false} ListedAll(nodes: map<string, Node>, order: seq<string>)
    requires forall i :: 0 <= i < |order| ==> order[i] in nodes
    ensures |Listed(nodes, order)| == |order|
    ensures forall i :: 0 <= i < |order| ==> Listed(nodes, order)[i] == NamedNode(order[i], nodes[order[i]])
  {
    if order != [] {
      var rest := order[1..];
      assert forall i :: 0 <= i < |rest| ==> rest[i] == order[i + 1];
      ListedAll(nodes, rest);
      var listed := Listed(nodes, order);
      assert listed == [NamedNode(order[0], nodes[order[0]])] + Listed(nodes, rest);
      assert forall i :: 0 < i < |order| ==> listed[i] == Listed(nodes, rest)[i - 1] && order[i] == rest[i - 1];
    }
  }

  lemma FactsOfAll(nodes: map<string, Node>, order: seq<string>, p: Policy)
    requires Lists(order, nodes)
    ensures
      var facts := Facts(Listed(nodes, order), p);
      && |facts| == |order| && DistinctNames(facts)
      && forall i :: 0 <= i < |order| ==> order[i] in nodes && facts[i] == Fact(order[i], nodes[order[i]], p)
  {
    ListedAll(nodes, order);
  }

  lemma RewrittenCarries(before: Node, after: Node, taint: Taint, applied: bool, removed: bool)
    requires Rewritten(before, after, taint, applied, removed)
    ensures CarriesKey(after.taints, taint.key) <==> (applied || CarriesKey(before.taints, taint.key)) && !removed
  {
    OthersShrinks(before.taints, taint.key);
    OthersShrinks(after.taints, taint.key);
  }

  predicate NoneRefused(replies: seq<Reply>)
  {
    forall i :: 0 <= i < |replies| ==> replies[i] != Refused
  }

  lemma ReachesAll(names: seq<string>, replies: seq<Reply>, n: string)
    requires |names| == |replies| && NoneRefused(replies)
    ensures Reaches(names, replies, n) <==> n in names
  {
  }

  /** The nodes that the pass reached. */
  function AllApplied(d: Decision, replies: seq<Reply>): set<string>
    requires |replies| == |d.applyTaint| + |d.removeTaint|
  {
    set n | n in d.applyTaint && Applied(d, replies, n)
  }

  function AllRemoved(d: Decision, replies: seq<Reply>): set<string>
    requires |replies| == |d.applyTaint| + |d.removeTaint|
  {
    set n | n in d.removeTaint && Removed(d, replies, n)
  }

  /** The nodes a pass is shown. */
  function Viewed(s: State, view: Option<map<string, Node>>): map<string, Node>
  {
    if view.None? then s.nodes else view.value
  }

  lemma EnactedFact(s: State, p: string, spec: PolicySpec, d: Decision, view: Option<map<string, Node>>,
                    order: seq<string>, now: int, replies: seq<Reply>, last: Reply, n: string)
    requires Decides(s, p, spec, d, view, order, now, replies) && Lists(order, Viewed(s, view)) && n in s.nodes
    ensures
      var policy := ProjectPolicy(spec).value;
      var s' := StateAfter(s, p, view, order, now, replies, last);
      var before := Fact(n, s.nodes[n], policy);
      && n in s'.nodes
      && Fact(n, s'.nodes[n], policy) == before.(hasTaint :=
           n in AllApplied(d, replies) || (before.hasTaint && n !in AllRemoved(d, replies)))
  {
    var policy := ProjectPolicy(spec).value;
    var s' := StateAfter(s, p, view, order, now, replies, last);
    FactsOfAll(Viewed(s, view), order, policy);
    ActionsAreExclusive(policy, Facts(Listed(Viewed(s, view), order), policy), now, n);
    PassEnacts(s, p, spec, d, view, order, now, replies, last, n);
    RewrittenCarries(s.nodes[n], s'.nodes[n], spec.taint.value, Applied(d, replies, n), Removed(d, replies, n));
  }

  /**
   In the terms of module Convergence: whatever view the pass decided on, and whatever is refused or lost,
   the next look at the nodes shows the facts of before, edited on the nodes that the pass reached.
   */
  lemma PassIsEnact(s: State, p: string, spec: PolicySpec, d: Decision, view: Option<map<string, Node>>,
                    order: seq<string>, now: int, replies: seq<Reply>, last: Reply)
    requires Decides(s, p, spec, d, view, order, now, replies)
    requires Lists(order, s.nodes) && Lists(order, Viewed(s, view))
    ensures
      var policy := ProjectPolicy(spec).value;
      var s' := StateAfter(s, p, view, order, now, replies, last);
      && Lists(order, s'.nodes)
      && Facts(Listed(s'.nodes, order), policy)
           == Enact(Facts(Listed(s.nodes, order), policy), AllApplied(d, replies), AllRemoved(d, replies))
  {
    var policy := ProjectPolicy(spec).value;
    var s' := StateAfter(s, p, view, order, now, replies, last);
    forall n | n in s.nodes
      ensures n in s'.nodes
      ensures Fact(n, s'.nodes[n], policy) == Fact(n, s.nodes[n], policy).(hasTaint :=
                n in AllApplied(d, replies)
                || (Fact(n, s.nodes[n], policy).hasTaint && n !in AllRemoved(d, replies)))
    {
      EnactedFact(s, p, spec, d, view, order, now, replies, last, n);
    }
    PassEnacts(s, p, spec, d, view, order, now, replies, last, "");
    EnactedFacts(s.nodes, s'.nodes, order, policy, AllApplied(d, replies), AllRemoved(d, replies));
  }

  lemma EnactedFacts(before: map<string, Node>, after: map<string, Node>, order: seq<string>, p: Policy,
                     applied: set<string>, removed: set<string>)
    requires Lists(order, before) && after.Keys == before.Keys
    requires forall n :: n in before ==>
               Fact(n, after[n], p) == Fact(n, before[n], p).(hasTaint :=
                 n in applied || (Fact(n, before[n], p).hasTaint && n !in removed))
    ensures Facts(Listed(after, order), p) == Enact(Facts(Listed(before, order), p), applied, removed)
  {
    FactsOfAll(before, order, p);
    FactsOfAll(after, order, p);
  }

  // ----- what the policy wants, in the fields of its spec and the nodes

  predicate Chosen(spec: PolicySpec, node: Node)
  {
    spec.nodeSelector.AnyNode? || (spec.nodeSelector.Parsed? && spec.nodeSelector.matches(node.labels))
  }

  function Watched(spec: PolicySpec, node: Node): ConditionFact
  {
    ConditionOf(node.conditions, spec.conditionType)
  }

  predicate Silenced(spec: PolicySpec, node: Node)
  {
    Watched(spec, node).status != spec.conditionStatus && Watched(spec, node).status in {"Unknown", ""}
  }

  function MatchedIn(spec: PolicySpec, nodes: map<string, Node>): set<string>
  {
    set n | n in nodes && Chosen(spec, nodes[n]) && Watched(spec, nodes[n]).status == spec.conditionStatus
  }

  function DeterminateIn(spec: PolicySpec, nodes: map<string, Node>): set<string>
  {
    set n | n in nodes && Chosen(spec, nodes[n]) && !Silenced(spec, nodes[n])
  }

  /** More of the nodes with a determinate condition match than the policy may remediate. */
  predicate Guarding(spec: PolicySpec, nodes: map<string, Node>)
  {
    var matched, determinate := |MatchedIn(spec, nodes)|, |DeterminateIn(spec, nodes)|;
    determinate > 0 && matched * 100 > spec.maxAffectedPercent * determinate
  }

  predicate StableSince(c: ConditionFact, window: int, now: int)
  {
    c.lastTransition.Some? && now - c.lastTransition.value >= window
  }

  /** Whether the node is to carry the key when the pass is over. */
  predicate Wanted(spec: PolicySpec, nodes: map<string, Node>, now: int, n: string)
    requires n in nodes && spec.taint.Some?
  {
    var c := Watched(spec, nodes[n]);
    var carries := CarriesKey(nodes[n].taints, spec.taint.value.key);
    if !Chosen(spec, nodes[n]) then false
    else if c.status == spec.conditionStatus then
      carries || (!Guarding(spec, nodes) && StableSince(c, spec.enter, now))
    else carries && (Silenced(spec, nodes[n]) || !StableSince(c, spec.exit, now))
  }

  /** A group of the facts has as many names as the set has nodes, if both pick the same nodes. */
  lemma GroupIsSet(m: Moment, g: Group, nodes: map<string, Node>, order: seq<string>, names: set<string>)
    requires Lists(order, nodes)
    requires forall n :: n in names ==> n in nodes
    requires forall n :: n in nodes ==> (n in names <==> Belongs(m, g, Fact(n, nodes[n], m.policy)))
    ensures |Names(m, g, Facts(Listed(nodes, order), m.policy))| == |names|
  {
    var facts := Facts(Listed(nodes, order), m.policy);
    FactsOfAll(nodes, order, m.policy);
    NamesDistinct(m, g, facts);
    forall n ensures n in Names(m, g, facts) <==> n in names {
      NamesMember(m, g, facts, n);
      if n in nodes {
        var i :| 0 <= i < |order| && order[i] == n;
        assert facts[i] == Fact(n, nodes[n], m.policy);
      }
    }
    assert (set n | n in Names(m, g, facts)) == names;
  }

  lemma GuardCountsNodes(spec: PolicySpec, nodes: map<string, Node>, order: seq<string>)
    requires Lists(order, nodes) && ProjectPolicy(spec).Some?
    ensures var policy := ProjectPolicy(spec).value;
            Tripped(policy, Facts(Listed(nodes, order), policy)) <==> Guarding(spec, nodes)
  {
    MatchedCountsNodes(spec, nodes, order);
    DeterminateCountsNodes(spec, nodes, order);
  }

  lemma MatchedCountsNodes(spec: PolicySpec, nodes: map<string, Node>, order: seq<string>)
    requires Lists(order, nodes) && ProjectPolicy(spec).Some?
    ensures var policy := ProjectPolicy(spec).value;
            MatchedCount(policy, Facts(Listed(nodes, order), policy)) == |MatchedIn(spec, nodes)|
  {
    GroupIsSet(Moment(ProjectPolicy(spec).value, false, 0), Matched, nodes, order, MatchedIn(spec, nodes));
  }

  lemma DeterminateCountsNodes(spec: PolicySpec, nodes: map<string, Node>, order: seq<string>)
    requires Lists(order, nodes) && ProjectPolicy(spec).Some?
    ensures var policy := ProjectPolicy(spec).value;
            DeterminateCount(policy, Facts(Listed(nodes, order), policy)) == |DeterminateIn(spec, nodes)|
  {
    GroupIsSet(Moment(ProjectPolicy(spec).value, false, 0), Determinate, nodes, order, DeterminateIn(spec, nodes));
  }

  /** The decision on a node of the listing, in the fields of the spec and of the node. */
  lemma ChosenByFields(spec: PolicySpec, nodes: map<string, Node>, order: seq<string>, now: int, n: string)
    requires Lists(order, nodes) && ProjectPolicy(spec).Some? && spec.taint.Some? && n in nodes
    ensures
      var policy := ProjectPolicy(spec).value;
      var d := DecisionFor(policy, Facts(Listed(nodes, order), policy), now);
      var c := Watched(spec, nodes[n]);
      var carries := CarriesKey(nodes[n].taints, spec.taint.value.key);
      && (n in d.applyTaint <==>
            && Chosen(spec, nodes[n]) && !carries && !Guarding(spec, nodes)
            && c.status == spec.conditionStatus && StableSince(c, spec.enter, now))
      && (n in d.removeTaint <==>
            && carries
            && (Chosen(spec, nodes[n]) ==>
                  && c.status != spec.conditionStatus && !Silenced(spec, nodes[n])
                  && StableSince(c, spec.exit, now)))
  {
    var policy := ProjectPolicy(spec).value;
    var facts := Facts(Listed(nodes, order), policy);
    FactsOfAll(nodes, order, policy);
    GuardCountsNodes(spec, nodes, order);
    var i :| 0 <= i < |order| && order[i] == n;
    assert facts[i] == Fact(n, nodes[n], policy);
    ActionsAreJustified(policy, facts, now, i);
  }

  /**
   An undisturbed pass on the stored nodes leaves the key exactly where the spec wants it, judged by the
   labels, the first watched condition, the clock and the guard; and where it is new, it is the spec's taint.
   */
  lemma PassTaintsExactly(s: State, p: string, spec: PolicySpec, d: Decision, order: seq<string>, now: int,
                          replies: seq<Reply>, last: Reply, n: string)
    requires Decides(s, p, spec, d, None, order, now, replies) && NoneRefused(replies)
    requires Lists(order, s.nodes) && n in s.nodes
    ensures
      var key := spec.taint.value.key;
      var s' := StateAfter(s, p, None, order, now, replies, last);
      && n in s'.nodes
      && (Carries(s'.nodes, n, key) <==> Wanted(spec, s.nodes, now, n))
      && (Carries(s'.nodes, n, key) && !Carries(s.nodes, n, key) ==>
            Ours(s'.nodes[n].taints, key) == [spec.taint.value])
  {
    var s' := StateAfter(s, p, None, order, now, replies, last);
    PassEnacts(s, p, spec, d, None, order, now, replies, last, n);
    ReachesAll(d.applyTaint, replies[..|d.applyTaint|], n);
    ReachesAll(d.removeTaint, replies[|d.applyTaint|..], n);
    RewrittenCarries(s.nodes[n], s'.nodes[n], spec.taint.value, n in d.applyTaint, n in d.removeTaint);
    ChosenByFields(spec, s.nodes, order, now, n);
  }
}
