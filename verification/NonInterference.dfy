/**
 When policies with different keys do not see each other. A run of the whole fleet, looked at through one
 stored policy and its key, is a run of that policy alone exactly if no late cleanup of another policy
 takes the key off a node; a key that nobody else ever declared is safe from that.
 */
module NonInterference {
  import opened Domain
  import opened Remediation
  import opened TaintList
  import opened Observe
  import opened Fleet
  import opened NoStrandedTaints

  // ----- looking at the fleet through one policy

  function OnlyKey(node: Node, key: string): Node
  {
    node.(taints := Ours(node.taints, key))
  }

  function OnlyKeys(nodes: map<string, Node>, key: string): map<string, Node>
  {
    map n | n in nodes :: OnlyKey(nodes[n], key)
  }

  function Focus(s: State, p: string, key: string): State
  {
    State(if p in s.policies then map[p := s.policies[p]] else map[], OnlyKeys(s.nodes, key))
  }

  /** The same action, as the policy alone would perform it. */
  function Narrow(a: Action, key: string): Action
  {
    match a
    case CreateNode(n, node) => CreateNode(n, OnlyKey(node, key))
    case WriteNode(n, node) => WriteNode(n, OnlyKey(node, key))
    case Plan(p, view, order, now) =>
      Plan(p, if view.None? then None else Some(OnlyKeys(view.value, key)), order, now)
    case _ => a
  }

  predicate Concerns(a: Action, p: string)
  {
    IsNodeAction(a) || a.policy == p
  }

  // ----- taint lists through one key

  lemma {:induction false} OursCarries(taints: seq<Taint>, key: string)
    ensures CarriesKey(Ours(taints, key), key) <==> CarriesKey(taints, key)
    ensures Ours(Ours(taints, key), key) == Ours(taints, key)
    ensures Others(Ours(taints, key), key) == []
  {
    if taints != [] {
      var front, last := taints[..|taints| - 1], taints[|taints| - 1];
      OursCarries(front, key);
      assert taints == front + [last];
      var o := Ours(front, key);
      if last.key == key {
        assert (o + [last])[..|o|] == o;
        assert (o + [last])[|o|].key == key && taints[|front|].key == key;
      } else {
        assert forall i :: 0 <= i < |front| ==> taints[i] == front[i];
      }
    }
  }

  /** An edit of the key does to the taints with the key what it does to the whole list. */
  lemma OwnMutate(op: TaintOp, taints: seq<Taint>, key: string)
    requires op.Key() == key
    ensures
      var whole, own := Mutate(op, taints), Mutate(op, Ours(taints, key));
      (whole.Some? <==> own.Some?) && (whole.Some? ==> Ours(whole.value, key) == own.value)
  {
    OursCarries(taints, key);
    if op.Ensure? {
      AppendTaint(taints, op.taint, key);
    } else {
      OursOfOthers(taints, key, key);
    }
  }

  lemma OwnEdit(nodes: map<string, Node>, n: string, op: TaintOp, key: string)
    requires op.Key() == key
    ensures OnlyKeys(EditTaints(nodes, n, op), key) == EditTaints(OnlyKeys(nodes, key), n, op)
  {
    if n in nodes {
      OwnMutate(op, nodes[n].taints, key);
    }
  }

  lemma OtherEdit(nodes: map<string, Node>, n: string, op: TaintOp, key: string)
    requires op.Key() != key
    ensures OnlyKeys(EditTaints(nodes, n, op), key) == OnlyKeys(nodes, key)
  {
    if n in nodes && Mutate(op, nodes[n].taints).Some? {
      MutateEffect(op, nodes[n].taints, key);
      OnlyKeysUpdate(nodes, n, nodes[n].(taints := Mutate(op, nodes[n].taints).value), key);
    }
  }

  lemma OnlyKeysUpdate(nodes: map<string, Node>, n: string, node: Node, key: string)
    ensures OnlyKeys(nodes[n := node], key) == OnlyKeys(nodes, key)[n := OnlyKey(node, key)]
  {
  }

  function Narrowed(nodes: seq<NamedNode>, key: string): seq<NamedNode>
  {
    seq(|nodes|, i requires 0 <= i < |nodes| => NamedNode(nodes[i].name, OnlyKey(nodes[i].node, key)))
  }

  lemma {:induction false} ListedNarrows(nodes: map<string, Node>, order: seq<string>, key: string)
    ensures Listed(OnlyKeys(nodes, key), order) == Narrowed(Listed(nodes, order), key)
  {
    if order != [] {
      ListedNarrows(nodes, order[1..], key);
      if order[0] in nodes {
        NarrowedCons(NamedNode(order[0], nodes[order[0]]), Listed(nodes, order[1..]), key);
      }
    }
  }

  lemma NarrowedCons(n: NamedNode, rest: seq<NamedNode>, key: string)
    ensures Narrowed([n] + rest, key) == [NamedNode(n.name, OnlyKey(n.node, key))] + Narrowed(rest, key)
  {
    var a, b := Narrowed([n] + rest, key), [NamedNode(n.name, OnlyKey(n.node, key))] + Narrowed(rest, key);
    assert forall i :: 0 < i < |a| ==> ([n] + rest)[i] == rest[i - 1] && a[i] == b[i];
  }

  /** A policy's facts do not depend on anyone else's taints. */
  lemma SameFacts(nodes: map<string, Node>, order: seq<string>, p: Policy)
    ensures Facts(Listed(OnlyKeys(nodes, p.taint.key), order), p) == Facts(Listed(nodes, order), p)
  {
    var all := Listed(nodes, order);
    ListedNarrows(nodes, order, p.taint.key);
    forall i | 0 <= i < |all|
      ensures Fact(all[i].name, OnlyKey(all[i].node, p.taint.key), p) == Fact(all[i].name, all[i].node, p)
    {
      OursCarries(all[i].node.taints, p.taint.key);
    }
  }

  lemma {:induction false} SameCarriers(nodes: map<string, Node>, order: seq<string>, key: string)
    ensures CarriersIn(OnlyKeys(nodes, key), order, key) == CarriersIn(nodes, order, key)
  {
    if order != [] {
      SameCarriers(nodes, order[1..], key);
      if order[0] in nodes {
        OursCarries(nodes[order[0]].taints, key);
      }
    }
  }

  // ----- steps

  predicate StoredWith(s: State, p: string, key: string)
  {
    p in s.policies && s.policies[p].latest.Present? && s.policies[p].latest.spec.taint.Some?
    && s.policies[p].latest.spec.taint.value.key == key
  }

  /** A pass over a deleted policy, and the version it read. */
  predicate Deleting(pass: Pass)
  {
    pass.Listing? || pass.Cleaning? || pass.Releasing?
  }

  function ReadOf(pass: Pass): nat
    requires Deleting(pass)
  {
    match pass
    case Listing(read) => read
    case Cleaning(read, _, _) => read
    case Releasing(read) => read
  }

  /** A pass on its way to remove the key. */
  predicate CleansKey(t: Track, key: string)
  {
    Deleting(t.pass) && CleanupKey(t, ReadOf(t.pass)) == Some(key)
  }

  ghost predicate VersionsKeyed(t: Track, key: string)
  {
    forall i: nat :: t.cache <= i <= |t.history| && VersionAt(t, i).Present? ==> CleanupKey(t, i) == Some(key)
  }

  /** Every version the policy can still read, or is cleaning up after, declares the key. */
  ghost predicate KeepsTo(t: Track, key: string)
  {
    VersionsKeyed(t, key) && (Deleting(t.pass) ==> CleansKey(t, key))
  }

  /**
   The one step that disturbs another policy: a cleanup takes the key off a node that carries it, although
   the deletion the cleanup read is no longer the stored version and the key has a new owner.
   */
  predicate Strips(s: State, a: Action, p: string, key: string)
  {
    a.CleanTaint? && a.policy != p && a.reply != Refused
    && var t := TrackOf(s, a.policy);
       && t.pass.Cleaning? && t.pass.read < |t.history| && CleanupKey(t, t.pass.read) == Some(key)
       && t.pass.todo != [] && Carries(s.nodes, t.pass.todo[0], key)
  }

  /** Nobody else acts on a decision under the key of a stored policy. */
  lemma OtherWriteInvisible(s: State, q: string, p: string, reply: Reply, key: string)
    requires Consistent(s) && StoredWith(s, p, key) && q != p && TrackOf(s, q).pass.Acting?
    ensures OnlyKeys(OperatorStep(s, WriteTaint(q, reply)).nodes, key) == OnlyKeys(s.nodes, key)
  {
    var w := NextWrite(TrackOf(s, q).pass);
    if w.Some? {
      if w.value.1.Key() == key {
        ActingOwnsKey(s, q, q, key);
        assert false;
      }
      OtherEdit(s.nodes, w.value.0, w.value.1, key);
    }
  }

  /** Taking the key off a node changes what is seen through it exactly when the node carried it. */
  lemma RemovalSeen(nodes: map<string, Node>, n: string, key: string)
    ensures OnlyKeys(EditTaints(nodes, n, Remove(key)), key) != OnlyKeys(nodes, key) <==> Carries(nodes, n, key)
  {
    if Carries(nodes, n, key) {
      var after := EditTaints(nodes, n, Remove(key));
      RemoveEffect(nodes, n, key, n, key);
      OursCarries(nodes[n].taints, key);
      OursCarries(after[n].taints, key);
      assert OnlyKeys(after, key)[n] != OnlyKeys(nodes, key)[n];
    }
  }

  /** A cleanup that read the stored deletion of another policy is not after a stored policy's key. */
  lemma CurrentCleanup(s: State, q: string, p: string, key: string)
    requires Consistent(s) && StoredWith(s, p, key) && q != p && TrackOf(s, q).pass.Cleaning?
    requires CleanupKey(TrackOf(s, q), TrackOf(s, q).pass.read) == Some(key)
    ensures TrackOf(s, q).pass.read < |TrackOf(s, q).history|
  {
    TrackIsSound(s, q);
    var t := TrackOf(s, q);
    assert VersionAt(t, |t.history|) == t.latest;
  }

  lemma CleanedNodes(s: State, q: string, reply: Reply)
    requires TrackOf(s, q).pass.Cleaning?
    ensures
      var t := TrackOf(s, q);
      var k := CleanupKey(t, t.pass.read);
      OperatorStep(s, CleanTaint(q, reply)).nodes ==
        if t.pass.todo != [] && k.Some? && reply != Refused
        then EditTaints(s.nodes, t.pass.todo[0], Remove(k.value)) else s.nodes
  {
  }

  lemma OtherCleanSeen(s: State, q: string, p: string, reply: Reply, key: string)
    requires Consistent(s) && StoredWith(s, p, key) && q != p && TrackOf(s, q).pass.Cleaning?
    ensures OnlyKeys(OperatorStep(s, CleanTaint(q, reply)).nodes, key) != OnlyKeys(s.nodes, key)
        <==> Strips(s, CleanTaint(q, reply), p, key)
  {
    var t := TrackOf(s, q);
    var k := CleanupKey(t, t.pass.read);
    CleanedNodes(s, q, reply);
    if t.pass.todo != [] && k.Some? && reply != Refused {
      if k.value == key {
        CurrentCleanup(s, q, p, key);
        RemovalSeen(s.nodes, t.pass.todo[0], key);
      } else {
        OtherEdit(s.nodes, t.pass.todo[0], Remove(k.value), key);
      }
    }
  }

  lemma FocusOfOther(s: State, a: Action, p: string, key: string)
    requires !Concerns(a, p)
    ensures Focus(Step(s, a), p, key) == Focus(s, p, key).(nodes := OnlyKeys(Step(s, a).nodes, key))
  {
  }

  lemma OnlyWritesTouchNodes(s: State, a: Action)
    requires !IsNodeAction(a)
    requires !(a.WriteTaint? && TrackOf(s, a.policy).pass.Acting?)
    requires !(a.CleanTaint? && TrackOf(s, a.policy).pass.Cleaning?)
    ensures Step(s, a).nodes == s.nodes
  {
  }

  /** A step of another policy is visible through a stored policy's key exactly if it strips it. */
  lemma OthersAreInvisible(s: State, a: Action, p: string, key: string)
    requires Consistent(s) && StoredWith(s, p, key) && !Concerns(a, p)
    ensures Focus(Step(s, a), p, key) != Focus(s, p, key) <==> Strips(s, a, p, key)
  {
    FocusOfOther(s, a, p, key);
    if a.WriteTaint? && TrackOf(s, a.policy).pass.Acting? {
      OtherWriteInvisible(s, a.policy, p, a.reply, key);
    } else if a.CleanTaint? && TrackOf(s, a.policy).pass.Cleaning? {
      OtherCleanSeen(s, a.policy, p, a.reply, key);
    } else {
      OnlyWritesTouchNodes(s, a);
    }
  }

  lemma NodeActionsNarrow(s: State, a: Action, p: string, key: string)
    requires IsNodeAction(a)
    ensures Focus(Step(s, a), p, key) == Step(Focus(s, p, key), Narrow(a, key))
  {
    if a.DeleteNode? {
      assert OnlyKeys(s.nodes - {a.name}, key) == OnlyKeys(s.nodes, key) - {a.name};
    } else {
      OnlyKeysUpdate(s.nodes, a.name, a.node, key);
    }
  }

  /** A user's action that was admitted next to the other policies is admitted alone. */
  lemma EnabledUserAction(s: State, a: Action, p: string, key: string)
    requires IsUserAction(a) && a.policy == p && p in s.policies && Step(s, a) != s
    ensures Focus(Step(s, a), p, key) == Step(Focus(s, p, key), a)
  {
    var f := Focus(s, p, key);
    assert TrackOf(f, p) == TrackOf(s, p);
    assert forall q :: q in f.policies ==> q == p;
    assert UserStep(f, a) == SetTrack(f, p, UserStep(s, a).policies[p]);
  }

  lemma PlanNarrows(s: State, a: Action, p: string, key: string)
    requires Consistent(s) && StoredWith(s, p, key) && a.Plan? && a.policy == p && TrackOf(s, p).pass.Planning?
    ensures Planned(OnlyKeys(s.nodes, key), TrackOf(s, p), Narrow(a, key).view, a.order, a.now)
         == Planned(s.nodes, TrackOf(s, p), a.view, a.order, a.now)
  {
    TrackIsSound(s, p);
    var t := TrackOf(s, p);
    assert Holds(t.latest, t.pass.spec.taint);
    var o := ProjectPolicy(t.pass.spec);
    if o.Some? {
      assert o.value.taint.key == key;
      SameFacts(if a.view.None? then s.nodes else a.view.value, a.order, o.value);
    }
  }

  /** Replacing the policy's track, or the nodes, commutes with looking through the policy. */
  lemma FocusParts(s: State, p: string, t: Track, nodes: map<string, Node>, key: string)
    requires p in s.policies
    ensures Focus(SetTrack(s.(nodes := nodes), p, t), p, key)
         == SetTrack(Focus(s, p, key).(nodes := OnlyKeys(nodes, key)), p, t)
  {
  }

  lemma OwnWriteNarrows(s: State, p: string, reply: Reply, key: string)
    requires Consistent(s) && StoredWith(s, p, key) && TrackOf(s, p).pass.Acting?
    ensures Focus(OperatorStep(s, WriteTaint(p, reply)), p, key) == OperatorStep(Focus(s, p, key), WriteTaint(p, reply))
  {
    TrackIsSound(s, p);
    var t := TrackOf(s, p);
    assert Holds(t.latest, t.pass.spec.taint);
    var w := NextWrite(t.pass);
    var nodes := if w.Some? && reply != Refused then EditTaints(s.nodes, w.value.0, w.value.1) else s.nodes;
    if w.Some? {
      OwnEdit(s.nodes, w.value.0, w.value.1, key);
    }
    FocusParts(s, p, t.(pass := Written(t.pass)), nodes, key);
  }

  lemma OwnCleanNarrows(s: State, p: string, reply: Reply, key: string)
    requires Consistent(s) && p in s.policies && KeepsTo(s.policies[p], key) && TrackOf(s, p).pass.Cleaning?
    ensures Focus(OperatorStep(s, CleanTaint(p, reply)), p, key) == OperatorStep(Focus(s, p, key), CleanTaint(p, reply))
  {
    TrackIsSound(s, p);
    var t := TrackOf(s, p);
    assert CleanupKey(t, t.pass.read) == Some(key);
    var nodes := if t.pass.todo != [] && reply != Refused
                 then EditTaints(s.nodes, t.pass.todo[0], Remove(key)) else s.nodes;
    if t.pass.todo != [] {
      OwnEdit(s.nodes, t.pass.todo[0], Remove(key), key);
    }
    FocusParts(s, p, t.(pass := Cleaned(s.nodes, t.pass, reply)), nodes, key);
  }

  lemma OwnListNarrows(s: State, p: string, order: seq<string>, key: string)
    requires Consistent(s) && p in s.policies && KeepsTo(s.policies[p], key) && TrackOf(s, p).pass.Listing?
    ensures Focus(OperatorStep(s, ListForCleanup(p, order)), p, key) ==
            OperatorStep(Focus(s, p, key), ListForCleanup(p, order))
  {
    TrackIsSound(s, p);
    var t := TrackOf(s, p);
    assert CleanupKey(t, t.pass.read) == Some(key);
    SameCarriers(s.nodes, order, key);
    assert forall n :: n in s.nodes <==> n in OnlyKeys(s.nodes, key);
    FocusParts(s, p, t.(pass := ListedForCleanup(s.nodes, t, order)), s.nodes, key);
  }

  /** The policy's own steps do to its view exactly what they would do to the policy alone. */
  lemma OwnStepsNarrow(s: State, a: Action, p: string, key: string)
    requires Consistent(s) && StoredWith(s, p, key) && KeepsTo(s.policies[p], key)
    requires !IsNodeAction(a) && !IsUserAction(a) && a.policy == p
    ensures Focus(Step(s, a), p, key) == Step(Focus(s, p, key), Narrow(a, key))
  {
    var t := TrackOf(s, p);
    match a
    case WriteTaint(_, reply) =>
      if t.pass.Acting? {
        OwnWriteNarrows(s, p, reply, key);
      }
    case CleanTaint(_, reply) =>
      if t.pass.Cleaning? {
        OwnCleanNarrows(s, p, reply, key);
      }
    case ListForCleanup(_, order) =>
      if t.pass.Listing? {
        OwnListNarrows(s, p, order, key);
      }
    case Plan(_, view, order, now) =>
      if t.pass.Planning? {
        PlanNarrows(s, a, p, key);
        FocusParts(s, p, t.(pass := Planned(s.nodes, t, view, order, now)), s.nodes, key);
      }
    case Start(_) =>
      FocusParts(s, p, t.(pass := Started(t)), s.nodes, key);
    case StoreFinalizer(_, reply) =>
      if t.pass.AddingFinalizer? {
        FocusParts(s, p, FinalizerStored(t, reply), s.nodes, key);
      }
    case ReleaseFinalizer(_, reply) =>
      if t.pass.Releasing? {
        FocusParts(s, p, Released(t, reply), s.nodes, key);
      }
    case Crash(_) =>
      FocusParts(s, p, t.(pass := Idle), s.nodes, key);
  }

  // ----- runs

  /** The policy is stored with the key before every step of the run; the last step may be its own release. */
  ghost predicate StoredUntil(s: State, actions: seq<Action>, p: string, key: string)
  {
    actions == [] || (
      && StoredUntil(s, actions[..|actions| - 1], p, key)
      && StoredWith(Run(s, actions[..|actions| - 1]), p, key))
  }

  /** The cache does not go back to an older version of this policy. */
  ghost predicate NeverBackFor(s: State, actions: seq<Action>, p: string)
  {
    actions == [] || (
      && NeverBackFor(s, actions[..|actions| - 1], p)
      && !GoesBackFor(Run(s, actions[..|actions| - 1]), actions[|actions| - 1], p))
  }

  ghost predicate NeverStripped(s: State, actions: seq<Action>, p: string, key: string)
  {
    actions == [] || (
      && NeverStripped(s, actions[..|actions| - 1], p, key)
      && !Strips(Run(s, actions[..|actions| - 1]), actions[|actions| - 1], p, key))
  }

  /** The policy's own part of a run; an update that admission refused is left out. */
  ghost function Alone(s: State, actions: seq<Action>, p: string, key: string): seq<Action>
  {
    if actions == [] then []
    else
      var front, a := actions[..|actions| - 1], actions[|actions| - 1];
      var rest := Alone(s, front, p, key);
      if !Concerns(a, p) || (IsUserAction(a) && Step(Run(s, front), a) == Run(s, front)) then rest
      else rest + [Narrow(a, key)]
  }

  /** Seen through the policy, the run is at every point the run of that policy alone. */
  ghost predicate LooksAlone(s: State, actions: seq<Action>, p: string, key: string)
  {
    && Focus(Run(s, actions), p, key) == Run(Focus(s, p, key), Alone(s, actions, p, key))
    && (actions != [] ==> LooksAlone(s, actions[..|actions| - 1], p, key))
  }

  ghost predicate Extends(t: Track, t': Track)
  {
    |t.history| <= |t'.history| && forall i: nat :: i <= |t.history| ==> VersionAt(t', i) == VersionAt(t, i)
  }

  /** A step supersedes a track's stored version, or keeps all versions and moves the cache or the pass. */
  ghost predicate Moves(t: Track, t': Track)
  {
    || (t'.history == t.history + [t.latest] && t'.cache == t.cache)
    || (t'.history == t.history && t'.latest == t.latest
        && (t'.cache == t.cache || (t'.cache <= |t.history| && t'.pass == t.pass)))
  }

  predicate GoesBackFor(s: State, a: Action, p: string)
  {
    GoesBack(s, a) && a.policy == p
  }

  lemma StepMoves(s: State, a: Action, q: string)
    ensures Moves(TrackOf(s, q), TrackOf(Step(s, a), q))
    ensures TrackOf(Step(s, a), q).cache < TrackOf(s, q).cache ==> GoesBackFor(s, a, q)
  {
  }

  lemma MovesExtend(t: Track, t': Track)
    requires Moves(t, t')
    ensures Extends(t, t')
    ensures forall i: nat :: |t.history| < i <= |t'.history| ==> VersionAt(t', i) == t'.latest
  {
  }

  /** While a policy is stored, its taint stays what it is. */
  lemma TaintStays(s: State, a: Action, p: string)
    requires p in s.policies && s.policies[p].latest.Present?
    ensures p in Step(s, a).policies
    ensures var o := Step(s, a).policies[p].latest; o.Present? ==> o.spec.taint == s.policies[p].latest.spec.taint
  {
  }

  lemma VersionsStayKeyed(t: Track, t': Track, key: string)
    requires Moves(t, t') && VersionsKeyed(t, key) && t.cache <= |t.history| && t.cache <= t'.cache
    requires t.latest.Present? && (t'.latest.Present? ==> t'.latest.spec.taint == t.latest.spec.taint)
    ensures VersionsKeyed(t', key)
  {
    MovesExtend(t, t');
    assert CleanupKey(t, |t.history|) == Some(key);
    forall i: nat | t'.cache <= i <= |t'.history| && VersionAt(t', i).Present? ensures CleanupKey(t', i) == Some(key) {
      if i <= |t.history| {
        assert CleanupKey(t, i) == Some(key);
      }
    }
  }

  /** A pass on a deletion has just started on the version the cache shows, or read the same one before the step. */
  lemma DeletingMoves(s: State, a: Action, q: string)
    requires Deleting(TrackOf(Step(s, a), q).pass)
    ensures
      var t, t' := TrackOf(s, q), TrackOf(Step(s, a), q);
      || (Deleting(t.pass) && ReadOf(t'.pass) == ReadOf(t.pass))
      || (a.Start? && a.policy == q && ReadOf(t'.pass) == t.cache && VersionAt(t, t.cache).Present?)
  {
  }

  lemma PassStaysKeyed(s: State, a: Action, p: string, key: string)
    requires TrackSound(TrackOf(s, p)) && KeepsTo(TrackOf(s, p), key)
    ensures var t' := TrackOf(Step(s, a), p); Deleting(t'.pass) ==> CleansKey(t', key)
  {
    var t, t' := TrackOf(s, p), TrackOf(Step(s, a), p);
    StepMoves(s, a, p);
    MovesExtend(t, t');
    if Deleting(t'.pass) {
      DeletingMoves(s, a, p);
    }
  }

  lemma StaysKeyed(s: State, a: Action, p: string, key: string)
    requires Consistent(s) && StoredWith(s, p, key) && KeepsTo(s.policies[p], key) && !GoesBackFor(s, a, p)
    ensures p in Step(s, a).policies && KeepsTo(Step(s, a).policies[p], key)
  {
    TrackIsSound(s, p);
    TaintStays(s, a, p);
    StepMoves(s, a, p);
    VersionsStayKeyed(s.policies[p], Step(s, a).policies[p], key);
    PassStaysKeyed(s, a, p, key);
  }

  /** One step, looked at through the policy: nothing, or the policy's own step. */
  lemma StepNarrows(s: State, a: Action, p: string, key: string)
    requires Consistent(s) && StoredWith(s, p, key) && KeepsTo(s.policies[p], key) && Concerns(a, p)
    ensures Focus(Step(s, a), p, key) ==
            if IsUserAction(a) && Step(s, a) == s then Focus(s, p, key) else Step(Focus(s, p, key), Narrow(a, key))
  {
    if IsNodeAction(a) {
      NodeActionsNarrow(s, a, p, key);
    } else if IsUserAction(a) {
      if Step(s, a) != s {
        EnabledUserAction(s, a, p, key);
      }
    } else {
      OwnStepsNarrow(s, a, p, key);
    }
  }

  /**
   Non-interference, exactly: while one policy is stored, the run of the fleet seen through that policy
   and its key is the run of that policy alone, step for step, if and only if no step strips its key.
   */
  lemma {:induction false} RunsAlone(s: State, actions: seq<Action>, p: string, key: string)
    requires Consistent(s) && SoundStarts(s, actions) && NeverBackFor(s, actions, p)
    requires p in s.policies && KeepsTo(s.policies[p], key) && StoredUntil(s, actions, p, key)
    ensures LooksAlone(s, actions, p, key) <==> NeverStripped(s, actions, p, key)
    ensures p in Run(s, actions).policies && KeepsTo(Run(s, actions).policies[p], key)
  {
    if actions != [] {
      var front, a := actions[..|actions| - 1], actions[|actions| - 1];
      var mid := Run(s, front);
      RunsAlone(s, front, p, key);
      ConsistentRun(s, front);
      StaysKeyed(mid, a, p, key);
      if Concerns(a, p) {
        StepNarrows(mid, a, p, key);
        RunOneMore(Focus(s, p, key), Alone(s, front, p, key), Narrow(a, key));
      } else {
        OthersAreInvisible(mid, a, p, key);
      }
    }
  }

  // ----- a key nobody else ever used

  ghost predicate NeverKey(t: Track, key: string)
  {
    forall i: nat :: i <= |t.history| ==> CleanupKey(t, i) != Some(key)
  }

  /** No version of any other policy, stored or superseded, declares the key. */
  ghost predicate NobodyElse(s: State, p: string, key: string)
  {
    forall q :: q in s.policies && q != p ==> NeverKey(s.policies[q], key)
  }

  lemma StaysUnused(s: State, a: Action, p: string, q: string, key: string)
    requires StoredWith(s, p, key) && NeverKey(TrackOf(s, q), key) && q != p
    ensures NeverKey(TrackOf(Step(s, a), q), key)
  {
    var t, t' := TrackOf(s, q), TrackOf(Step(s, a), q);
    StepMoves(s, a, q);
    MovesExtend(t, t');
    assert CleanupKey(t, |t.history|) != Some(key);
    assert CleanupKey(t', |t'.history|) != Some(key) by {
      NewVersionAvoids(s, a, p, q, key);
    }
    forall i: nat | i <= |t'.history| ensures CleanupKey(t', i) != Some(key) {
      if i <= |t.history| {
        assert CleanupKey(t, i) != Some(key);
      }
    }
  }

  lemma NewVersionAvoids(s: State, a: Action, p: string, q: string, key: string)
    requires StoredWith(s, p, key) && CleanupKey(TrackOf(s, q), |TrackOf(s, q).history|) != Some(key) && q != p
    ensures CleanupKey(TrackOf(Step(s, a), q), |TrackOf(Step(s, a), q).history|) != Some(key)
  {
  }

  lemma {:induction false} NobodyElseStays(s: State, actions: seq<Action>, p: string, key: string)
    requires NobodyElse(s, p, key) && StoredUntil(s, actions, p, key)
    ensures NobodyElse(Run(s, actions), p, key) && NeverStripped(s, actions, p, key)
  {
    if actions != [] {
      var front, a := actions[..|actions| - 1], actions[|actions| - 1];
      var mid := Run(s, front);
      NobodyElseStays(s, front, p, key);
      forall q | q in Step(mid, a).policies && q != p ensures NeverKey(Step(mid, a).policies[q], key) {
        assert NeverKey(TrackOf(mid, q), key);
        StaysUnused(mid, a, p, q, key);
      }
    }
  }

  /**
   What a user can check beforehand: if no other policy, live or deleted, ever declared the key, nobody
   can disturb the policy for as long as it is stored, since admission keeps every other one off the key.
   */
  lemma FreshKeyRunsAlone(s: State, actions: seq<Action>, p: string, key: string)
    requires Consistent(s) && SoundStarts(s, actions) && NeverBackFor(s, actions, p)
    requires p in s.policies && KeepsTo(s.policies[p], key) && StoredUntil(s, actions, p, key)
    requires NobodyElse(s, p, key)
    ensures LooksAlone(s, actions, p, key)
  {
    NobodyElseStays(s, actions, p, key);
    RunsAlone(s, actions, p, key);
  }
}
