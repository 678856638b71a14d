/**
 What one pass of the fleet's machine does: it gets ready, decides on the nodes it is shown, gives every
 listed node its own write, and goes idle.
 */
module OnePass {
  import opened Domain
  import opened Remediation
  import opened TaintList
  import opened Observe
  import opened Fleet

  // ----- getting ready

  /** From an idle state in which the cache shows the stored live policy, to its decision. */
  lemma PassBegins(s: State, p: string) returns (actions: seq<Action>)
    requires p in s.policies && s.policies[p].pass.Idle? && s.policies[p].cache == |s.policies[p].history|
    requires s.policies[p].latest.Present? && !s.policies[p].latest.deleting
    ensures forall i :: 0 <= i < |actions| ==> actions[i].Start? || actions[i].StoreFinalizer?
    ensures
      var s' := Run(s, actions);
      var o := s.policies[p].latest;
      && s'.nodes == s.nodes && p in s'.policies
      && s'.policies[p].pass == Planning(o.spec)
      && s'.policies[p].latest == o.(finalizer := true)
  {
    var t := s.policies[p];
    assert VersionAt(t, t.cache) == t.latest;
    var s1 := Step(s, Start(p));
    RunOne(s, Start(p));
    actions := [Start(p)];
    if !t.latest.finalizer {
      assert s1 == SetPass(s, p, AddingFinalizer(t.cache));
      actions := [Start(p)] + [StoreFinalizer(p, Acked)];
      RunOneMore(s, [Start(p)], StoreFinalizer(p, Acked));
    }
  }

  // ----- the writes of one pass

  /** The policy's write steps with these replies, one after the other. */
  function Writes(p: string, replies: seq<Reply>): seq<Action>
  {
    seq(|replies|, i requires 0 <= i < |replies| => WriteTaint(p, replies[i]))
  }

  /** The write for this node was not refused, whether or not its reply arrived. */
  predicate Reaches(names: seq<string>, replies: seq<Reply>, n: string)
    requires |names| == |replies|
  {
    exists i :: 0 <= i < |names| && names[i] == n && replies[i] != Refused
  }

  lemma ReachesCons(names: seq<string>, replies: seq<Reply>, n: string)
    requires |names| == |replies| && names != []
    ensures Reaches(names, replies, n) <==>
            (names[0] == n && replies[0] != Refused) || Reaches(names[1..], replies[1..], n)
  {
    assert forall i :: 0 < i < |names| ==> names[i] == names[1..][i - 1] && replies[i] == replies[1..][i - 1];
  }

  /** What a pass may have done to one node's taints: nothing to other keys, and the key as `carries` says. */
  predicate Rewritten(before: Node, after: Node, taint: Taint, applied: bool, removed: bool)
  {
    && after.labels == before.labels && after.conditions == before.conditions
    && Others(after.taints, taint.key) == Others(before.taints, taint.key)
    && (removed ==> Ours(after.taints, taint.key) == [])
    && (!removed && applied && !CarriesKey(before.taints, taint.key) ==> Ours(after.taints, taint.key) == [taint])
    && (!removed && (CarriesKey(before.taints, taint.key) || !applied) ==> after.taints == before.taints)
  }

  lemma EnsureRewrites(before: Node, taint: Taint, reached: bool)
    ensures
      var u := Mutate(Ensure(taint), before.taints);
      var after := if reached && u.Some? then before.(taints := u.value) else before;
      Rewritten(before, after, taint, reached, false)
  {
    if Mutate(Ensure(taint), before.taints).Some? {
      AppendTaint(before.taints, taint, taint.key);
      OthersShrinks(before.taints, taint.key);
    }
  }

  lemma RemoveRewrites(before: Node, taint: Taint, reached: bool)
    ensures
      var u := Mutate(Remove(taint.key), before.taints);
      var after := if reached && u.Some? then before.(taints := u.value) else before;
      Rewritten(before, after, taint, false, reached)
  {
    OthersShrinks(before.taints, taint.key);
    OursOfOthers(before.taints, taint.key, taint.key);
    OthersShrinks(Others(before.taints, taint.key), taint.key);
  }

  lemma ApplyThen(a: Node, b: Node, c: Node, taint: Taint, first: bool, applied: bool, removed: bool)
    requires Rewritten(a, b, taint, first, false) && Rewritten(b, c, taint, applied, removed)
    ensures Rewritten(a, c, taint, first || applied, removed)
  {
    OthersShrinks(a.taints, taint.key);
    OthersShrinks(b.taints, taint.key);
  }

  lemma RemoveThen(a: Node, b: Node, c: Node, taint: Taint, first: bool, removed: bool)
    requires Rewritten(a, b, taint, false, first) && Rewritten(b, c, taint, false, removed)
    ensures Rewritten(a, c, taint, false, first || removed)
  {
    OthersShrinks(a.taints, taint.key);
    OthersShrinks(b.taints, taint.key);
    OthersShrinks(c.taints, taint.key);
  }

  lemma ApplyIs(s: State, p: string, spec: PolicySpec, applies: seq<string>, removes: seq<string>, reply: Reply)
    requires p in s.policies && s.policies[p].pass == Acting(spec, applies, removes)
    requires applies != [] && spec.taint.Some?
    ensures
      var nodes := if reply == Refused then s.nodes else EditTaints(s.nodes, applies[0], Ensure(spec.taint.value));
      Step(s, WriteTaint(p, reply))
        == SetTrack(s.(nodes := nodes), p, s.policies[p].(pass := Acting(spec, applies[1..], removes)))
  {
  }

  lemma RemoveIs(s: State, p: string, spec: PolicySpec, removes: seq<string>, reply: Reply)
    requires p in s.policies && s.policies[p].pass == Acting(spec, [], removes) && removes != [] && spec.taint.Some?
    ensures
      var nodes := if reply == Refused then s.nodes else EditTaints(s.nodes, removes[0], Remove(spec.taint.value.key));
      Step(s, WriteTaint(p, reply))
        == SetTrack(s.(nodes := nodes), p, s.policies[p].(pass := Acting(spec, [], removes[1..])))
  {
  }

  lemma EditedNode(nodes: map<string, Node>, m: string, op: TaintOp, n: string)
    requires n in nodes
    ensures EditTaints(nodes, m, op).Keys == nodes.Keys
    ensures
      var u := Mutate(op, nodes[n].taints);
      EditTaints(nodes, m, op)[n] == if m == n && u.Some? then nodes[n].(taints := u.value) else nodes[n]
  {
  }

  lemma ApplyStep(s: State, p: string, spec: PolicySpec, applies: seq<string>, removes: seq<string>,
                  reply: Reply, n: string)
    requires p in s.policies && s.policies[p].pass == Acting(spec, applies, removes)
    requires applies != [] && spec.taint.Some?
    ensures
      var s' := Step(s, WriteTaint(p, reply));
      && s'.policies == s.policies[p := s.policies[p].(pass := Acting(spec, applies[1..], removes))]
      && s'.nodes.Keys == s.nodes.Keys
      && (n in s.nodes ==>
            Rewritten(s.nodes[n], s'.nodes[n], spec.taint.value, applies[0] == n && reply != Refused, false))
  {
    ApplyIs(s, p, spec, applies, removes, reply);
    if n in s.nodes {
      EditedNode(s.nodes, applies[0], Ensure(spec.taint.value), n);
      EnsureRewrites(s.nodes[n], spec.taint.value, applies[0] == n && reply != Refused);
    }
  }

  lemma RemoveStep(s: State, p: string, spec: PolicySpec, removes: seq<string>, reply: Reply, n: string)
    requires p in s.policies && s.policies[p].pass == Acting(spec, [], removes) && removes != [] && spec.taint.Some?
    ensures
      var s' := Step(s, WriteTaint(p, reply));
      && s'.policies == s.policies[p := s.policies[p].(pass := Acting(spec, [], removes[1..]))]
      && s'.nodes.Keys == s.nodes.Keys
      && (n in s.nodes ==>
            Rewritten(s.nodes[n], s'.nodes[n], spec.taint.value, false, removes[0] == n && reply != Refused))
  {
    RemoveIs(s, p, spec, removes, reply);
    if n in s.nodes {
      EditedNode(s.nodes, removes[0], Remove(spec.taint.value.key), n);
      RemoveRewrites(s.nodes[n], spec.taint.value, removes[0] == n && reply != Refused);
    }
  }

  lemma FirstWrite(s: State, p: string, replies: seq<Reply>)
    requires replies != []
    ensures Run(s, Writes(p, replies)) == Run(Step(s, WriteTaint(p, replies[0])), Writes(p, replies[1..]))
  {
    var first, rest := WriteTaint(p, replies[0]), Writes(p, replies[1..]);
    assert Writes(p, replies) == [first] + rest;
    RunConcat(s, [first], rest);
    RunOne(s, first);
  }

  /** What the writes of a pass have done, given their replies. */
  ghost predicate Done(s: State, s': State, p: string, spec: PolicySpec, applies: seq<string>, removes: seq<string>,
                       replies: seq<Reply>, n: string)
    requires p in s.policies && spec.taint.Some? && |replies| == |applies| + |removes|
  {
    && s'.policies == s.policies[p := s.policies[p].(pass := Acting(spec, [], []))]
    && s'.nodes.Keys == s.nodes.Keys
    && (n in s.nodes ==>
          Rewritten(s.nodes[n], s'.nodes[n], spec.taint.value,
                    Reaches(applies, replies[..|applies|], n), Reaches(removes, replies[|applies|..], n)))
  }

  lemma {:induction false} RemovesRun(s: State, p: string, spec: PolicySpec, removes: seq<string>,
                                      replies: seq<Reply>, n: string)
    requires p in s.policies && s.policies[p].pass == Acting(spec, [], removes) && spec.taint.Some?
    requires |replies| == |removes|
    ensures Done(s, Run(s, Writes(p, replies)), p, spec, [], removes, replies, n)
    decreases |removes|
  {
    assert replies[..0] == [] && replies[0..] == replies;
    if removes == [] {
      assert s.policies == s.policies[p := s.policies[p].(pass := Acting(spec, [], []))];
    } else {
      var s1 := Step(s, WriteTaint(p, replies[0]));
      RemoveStep(s, p, spec, removes, replies[0], n);
      RemovesRun(s1, p, spec, removes[1..], replies[1..], n);
      FirstWrite(s, p, replies);
      ReachesCons(removes, replies, n);
      assert replies[1..][0..] == replies[1..];
      if n in s.nodes {
        RemoveThen(s.nodes[n], s1.nodes[n], Run(s, Writes(p, replies)).nodes[n], spec.taint.value,
          removes[0] == n && replies[0] != Refused, Reaches(removes[1..], replies[1..], n));
      }
    }
  }

  lemma SliceReplies(replies: seq<Reply>, a: nat)
    requires 0 < a <= |replies|
    ensures replies[..a][0] == replies[0] && replies[..a][1..] == replies[1..][..a - 1]
    ensures replies[1..][a - 1..] == replies[a..]
  {
  }

  /** One more apply before a finished rest. */
  lemma DoneCons(s: State, s1: State, s': State, p: string, spec: PolicySpec, applies: seq<string>,
                 removes: seq<string>, replies: seq<Reply>, n: string)
    requires p in s.policies && p in s1.policies && spec.taint.Some? && applies != []
    requires |replies| == |applies| + |removes|
    requires s1.policies == s.policies[p := s.policies[p].(pass := Acting(spec, applies[1..], removes))]
    requires s1.nodes.Keys == s.nodes.Keys
    requires n in s.nodes ==>
               Rewritten(s.nodes[n], s1.nodes[n], spec.taint.value, applies[0] == n && replies[0] != Refused, false)
    requires Done(s1, s', p, spec, applies[1..], removes, replies[1..], n)
    ensures Done(s, s', p, spec, applies, removes, replies, n)
  {
    SliceReplies(replies, |applies|);
    ReachesCons(applies, replies[..|applies|], n);
    if n in s.nodes {
      ApplyThen(s.nodes[n], s1.nodes[n], s'.nodes[n], spec.taint.value, applies[0] == n && replies[0] != Refused,
        Reaches(applies[1..], replies[1..][..|applies| - 1], n), Reaches(removes, replies[|applies|..], n));
    }
  }

  lemma {:induction false} WritesRun(s: State, p: string, spec: PolicySpec, applies: seq<string>, removes: seq<string>,
                                     replies: seq<Reply>, n: string)
    requires p in s.policies && s.policies[p].pass == Acting(spec, applies, removes) && spec.taint.Some?
    requires |replies| == |applies| + |removes|
    ensures Done(s, Run(s, Writes(p, replies)), p, spec, applies, removes, replies, n)
    decreases |applies|
  {
    if applies == [] {
      RemovesRun(s, p, spec, removes, replies, n);
    } else {
      var s1 := Step(s, WriteTaint(p, replies[0]));
      ApplyStep(s, p, spec, applies, removes, replies[0], n);
      WritesRun(s1, p, spec, applies[1..], removes, replies[1..], n);
      FirstWrite(s, p, replies);
      DoneCons(s, s1, Run(s1, Writes(p, replies[1..])), p, spec, applies, removes, replies, n);
    }
  }

  // ----- a whole pass

  /** What the pass decides on: the nodes it is shown, in its listing order. */
  function Shown(s: State, view: Option<map<string, Node>>, order: seq<string>, p: Policy): seq<NodeFact>
  {
    Facts(Listed(if view.None? then s.nodes else view.value, order), p)
  }

  /** The decision of a pass on the spec it read. */
  function Choice(s: State, spec: PolicySpec, view: Option<map<string, Node>>, order: seq<string>, now: int): Decision
    requires ProjectPolicy(spec).Some?
  {
    var policy := ProjectPolicy(spec).value;
    DecisionFor(policy, Shown(s, view, order, policy), now)
  }

  /** The policy is about to decide, and there is a reply for each write of that decision. */
  ghost predicate Decides(s: State, p: string, spec: PolicySpec, d: Decision, view: Option<map<string, Node>>,
                          order: seq<string>, now: int, replies: seq<Reply>)
  {
    && p in s.policies && s.policies[p].pass == Planning(spec)
    && ProjectPolicy(spec).Some? && spec.taint.Some?
    && d == Choice(s, spec, view, order, now)
    && |replies| == |d.applyTaint| + |d.removeTaint|
  }

  /** The state after the policy decided and wrote, with nobody else moving. */
  function StateAfter(s: State, p: string, view: Option<map<string, Node>>, order: seq<string>, now: int,
                     replies: seq<Reply>, last: Reply): State
  {
    Run(s, [Plan(p, view, order, now)] + Writes(p, replies) + [WriteTaint(p, last)])
  }

  /** The write for this node was not refused, as an apply and as a remove. */
  predicate Applied(d: Decision, replies: seq<Reply>, n: string)
    requires |replies| == |d.applyTaint| + |d.removeTaint|
  {
    Reaches(d.applyTaint, replies[..|d.applyTaint|], n)
  }

  predicate Removed(d: Decision, replies: seq<Reply>, n: string)
    requires |replies| == |d.applyTaint| + |d.removeTaint|
  {
    Reaches(d.removeTaint, replies[|d.applyTaint|..], n)
  }

  lemma PlanIs(s: State, p: string, spec: PolicySpec, view: Option<map<string, Node>>, order: seq<string>, now: int)
    requires p in s.policies && s.policies[p].pass == Planning(spec) && ProjectPolicy(spec).Some?
    ensures
      var d := Choice(s, spec, view, order, now);
      Step(s, Plan(p, view, order, now)) == SetPass(s, p, Acting(spec, d.applyTaint, d.removeTaint))
  {
  }

  /** A pass whose spec cannot be used ends at once and touches nothing. */
  lemma UnusableSpecDoesNothing(s: State, p: string, view: Option<map<string, Node>>, order: seq<string>, now: int)
    requires p in s.policies && s.policies[p].pass.Planning? && s.policies[p].pass.spec.nodeSelector.Malformed?
    ensures Step(s, Plan(p, view, order, now)) == SetPass(s, p, Idle)
  {
  }

  /**
   One pass enacts its decision: whatever is refused and whatever reply is lost, every applied node and then
   every removed one gets its own write, the pass goes idle, and each node carries the key exactly if it was
   reached by an apply or carried it, and was not reached by a remove. Nothing else changes.
   */
  lemma PassEnacts(s: State, p: string, spec: PolicySpec, d: Decision, view: Option<map<string, Node>>,
                   order: seq<string>, now: int, replies: seq<Reply>, last: Reply, n: string)
    requires Decides(s, p, spec, d, view, order, now, replies)
    ensures
      var s' := StateAfter(s, p, view, order, now, replies, last);
      && s'.policies == s.policies[p := s.policies[p].(pass := Idle)]
      && s'.nodes.Keys == s.nodes.Keys
      && (n in s.nodes ==>
            Rewritten(s.nodes[n], s'.nodes[n], spec.taint.value, Applied(d, replies, n), Removed(d, replies, n)))
  {
    var plan := Plan(p, view, order, now);
    PlanIs(s, p, spec, view, order, now);
    var s1 := SetPass(s, p, Acting(spec, d.applyTaint, d.removeTaint));
    WritesRun(s1, p, spec, d.applyTaint, d.removeTaint, replies, n);
    PassRun(s, plan, p, replies, last);
    AfterWrites(s, Run(s1, Writes(p, replies)), p, spec, d, replies, last, n);
  }

  /** What the writes have done, and the step that finds no more to write. */
  lemma AfterWrites(s: State, s2: State, p: string, spec: PolicySpec, d: Decision, replies: seq<Reply>,
                    last: Reply, n: string)
    requires p in s.policies && spec.taint.Some? && |replies| == |d.applyTaint| + |d.removeTaint|
    requires Done(SetPass(s, p, Acting(spec, d.applyTaint, d.removeTaint)), s2, p, spec,
                  d.applyTaint, d.removeTaint, replies, n)
    ensures
      var s' := Step(s2, WriteTaint(p, last));
      && s'.policies == s.policies[p := s.policies[p].(pass := Idle)]
      && s'.nodes.Keys == s.nodes.Keys
      && (n in s.nodes ==>
            Rewritten(s.nodes[n], s'.nodes[n], spec.taint.value, Applied(d, replies, n), Removed(d, replies, n)))
  {
    LastWriteIs(s2, p, spec, last);
  }

  lemma PassRun(s: State, plan: Action, p: string, replies: seq<Reply>, last: Reply)
    ensures Run(s, [plan] + Writes(p, replies) + [WriteTaint(p, last)])
         == Step(Run(Step(s, plan), Writes(p, replies)), WriteTaint(p, last))
  {
    var writes := Writes(p, replies);
    RunOne(s, plan);
    RunConcat(s, [plan], writes);
    RunOneMore(s, [plan] + writes, WriteTaint(p, last));
  }

  lemma LastWriteIs(s: State, p: string, spec: PolicySpec, last: Reply)
    requires p in s.policies && s.policies[p].pass == Acting(spec, [], [])
    ensures Step(s, WriteTaint(p, last)) == SetPass(s, p, Idle)
  {
  }
}
