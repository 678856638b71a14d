/**
 Safety of the whole fleet: in every interleaving, a node carries an operator's key only while the
 policy that owns the key is stored and holds its finalizer.
 */
module NoStrandedTaints {
  import opened Domain
  import opened Remediation
  import opened DecisionLaws
  import opened Observe
  import opened TaintList
  import opened Admission
  import opened Fleet

  /** The policy object is stored with this taint and its finalizer. */
  predicate Holds(o: Object, taint: Option<Taint>)
  {
    o.Present? && o.finalizer && o.spec.taint == taint
  }

  predicate HoldsKey(o: Object, key: string)
  {
    o.Present? && o.finalizer && o.spec.taint.Some? && o.spec.taint.value.key == key
  }

  predicate LiveHeld(o: Object)
  {
    o.Present? && !o.deleting && o.finalizer
  }

  predicate Ending(o: Object)
  {
    o.Present? && o.deleting && o.finalizer
  }

  /** What a pass remembers is still true of the store, or can no longer be acted on. */
  predicate PassSound(t: Track)
  {
    match t.pass
    case Idle => true
    case AddingFinalizer(read) => read <= |t.history|
    case Planning(spec) => Holds(t.latest, spec.taint)
    case Acting(spec, _, _) => Holds(t.latest, spec.taint)
    case Listing(read) => read <= |t.history| && Ending(VersionAt(t, read))
    case Cleaning(read, _, _) => read <= |t.history| && Ending(VersionAt(t, read))
    case Releasing(read) => read <= |t.history| && Ending(VersionAt(t, read))
  }

  ghost predicate TrackSound(t: Track)
  {
    && t.cache <= |t.history|
    && (forall i: nat :: i <= |t.history| && VersionAt(t, i).Present? ==> VersionAt(t, i).spec.taint.Some?)
    && PassSound(t)
  }

  ghost predicate KeysUnique(s: State)
  {
    forall p, q :: p in s.policies && q in s.policies && p != q
      && s.policies[p].latest.Present? && s.policies[q].latest.Present?
      ==> !SameKey(s.policies[p].latest.spec, s.policies[q].latest.spec)
  }

  /** A cleanup that can still release the finalizer has every remaining carrier on its list. */
  ghost predicate CleanupCovers(t: Track, nodes: map<string, Node>, key: string)
  {
    && (t.pass.Cleaning? && t.pass.read == |t.history| && !t.pass.failed && CleanupKey(t, t.pass.read) == Some(key) ==>
          forall n :: Carries(nodes, n, key) ==> n in t.pass.todo)
    && (t.pass.Releasing? && t.pass.read == |t.history| && CleanupKey(t, t.pass.read) == Some(key) ==>
          forall n :: !Carries(nodes, n, key))
  }

  /** What holds of the policies alone, whatever anyone does to the nodes. */
  ghost predicate Consistent(s: State)
  {
    KeysUnique(s) && forall p :: p in s.policies ==> TrackSound(s.policies[p])
  }

  /** Every carrier of the key has a stored owner with its finalizer, and no cleanup overlooks one. */
  ghost predicate Guarded(s: State, key: string)
  {
    && (forall p :: p in s.policies ==> CleanupCovers(s.policies[p], s.nodes, key))
    && (forall n :: Carries(s.nodes, n, key) ==> exists p :: p in s.policies && HoldsKey(s.policies[p].latest, key))
  }

  ghost predicate Inv(s: State, key: string)
  {
    Consistent(s) && Guarded(s, key)
  }

  /** Clients other than the operator never give the key to a node that lacks it. */
  ghost predicate LeavesKeyAlone(s: State, a: Action, key: string)
  {
    match a
    case CreateNode(_, node) => !CarriesKey(node.taints, key)
    case WriteNode(n, node) => CarriesKey(node.taints, key) ==> Carries(s.nodes, n, key)
    case _ => true
  }

  ghost predicate QuietRun(s: State, actions: seq<Action>, key: string)
  {
    actions == [] || (
      && QuietRun(s, actions[..|actions| - 1], key)
      && LeavesKeyAlone(Run(s, actions[..|actions| - 1]), actions[|actions| - 1], key))
  }

  /**
   A pass that starts on a live version with its finalizer finds the object still held, with that taint.
   What else the cache may show, a deletion, a version without the finalizer or nothing, is harmless.
   */
  predicate StartsHeld(s: State, a: Action)
  {
    a.Start? && TrackOf(s, a.policy).pass.Idle? ==>
      var t := TrackOf(s, a.policy);
      var o := VersionAt(t, t.cache);
      LiveHeld(o) ==> Holds(t.latest, o.spec.taint)
  }

  ghost predicate SoundStarts(s: State, actions: seq<Action>)
  {
    actions == [] || (
      && SoundStarts(s, actions[..|actions| - 1])
      && StartsHeld(Run(s, actions[..|actions| - 1]), actions[|actions| - 1]))
  }

  ghost predicate StaysConsistent(s: State, actions: seq<Action>)
  {
    Consistent(Run(s, actions)) && (actions != [] ==> StaysConsistent(s, actions[..|actions| - 1]))
  }

  // ----- consistency of the policies

  lemma ConsistentTrack(s: State, p: string, t: Track)
    requires Consistent(s) && TrackSound(t) && (t.latest.Present? ==> Admits(s, p, t.latest.spec))
    ensures Consistent(SetTrack(s, p, t))
  {
  }

  /** The stored policy itself passes its own admission check again. */
  lemma StillAdmitted(s: State, p: string, spec: PolicySpec)
    requires KeysUnique(s) && TrackOf(s, p).latest.Present? && spec.taint == TrackOf(s, p).latest.spec.taint
    ensures Admits(s, p, spec)
  {
  }

  /** When a policy may be created: its name is free and nobody else declares its key. */
  lemma CreateTakesEffect(s: State, p: string, spec: PolicySpec)
    requires spec.taint.Some? && TrackOf(s, p).latest.Absent?
    ensures
      var s' := Step(s, CreatePolicy(p, spec));
      var free := forall q ::
        && q in s.policies && q != p
        && s.policies[q].latest.Present? && s.policies[q].latest.spec.taint.Some?
        ==> s.policies[q].latest.spec.taint.value.key != spec.taint.value.key;
      && (free ==> TrackOf(s', p).latest == Present(spec, false, false))
      && (!free ==> s' == s)
  {
  }

  /** An update of a stored policy takes effect exactly if it keeps the taint; uniqueness never stands in its way. */
  lemma UpdateTakesEffect(s: State, p: string, spec: PolicySpec)
    requires KeysUnique(s) && TrackOf(s, p).latest.Present?
    ensures
      var o, s' := TrackOf(s, p).latest, Step(s, UpdatePolicy(p, spec));
      && (spec.taint == o.spec.taint ==> TrackOf(s', p).latest == o.(spec := spec))
      && (spec.taint != o.spec.taint ==> s' == s)
  {
    if spec.taint == TrackOf(s, p).latest.spec.taint {
      StillAdmitted(s, p, spec);
    }
  }

  lemma TrackIsSound(s: State, p: string)
    requires Consistent(s)
    ensures TrackSound(TrackOf(s, p))
    ensures TrackOf(s, p).latest.Present? ==> TrackOf(s, p).latest.spec.taint.Some?
  {
    assert VersionAt(TrackOf(s, p), |TrackOf(s, p).history|) == TrackOf(s, p).latest;
  }

  /** A new stored version that keeps the finalizer and the taint of the one it supersedes. */
  lemma PushSound(t: Track, o: Object, pass: Pass)
    requires TrackSound(t) && (o.Present? ==> o.spec.taint.Some?)
    requires forall taint :: Holds(t.latest, taint) ==> Holds(o, taint)
    requires pass == t.pass || pass.Idle? || (pass.Planning? && Holds(o, pass.spec.taint))
    ensures TrackSound(Push(t, o).(pass := pass))
  {
    var t' := Push(t, o).(pass := pass);
    forall i: nat | i <= |t'.history| ensures VersionAt(t', i) == if i <= |t.history| then VersionAt(t, i) else o {
    }
  }

  /** Moving a pass on without touching any stored object. */
  lemma ConsistentPass(s: State, p: string, pass: Pass)
    requires Consistent(s) && PassSound(TrackOf(s, p).(pass := pass))
    ensures Consistent(SetPass(s, p, pass))
  {
    TrackIsSound(s, p);
    var t := TrackOf(s, p);
    if t.latest.Present? {
      StillAdmitted(s, p, t.latest.spec);
    }
    assert forall i: nat :: VersionAt(t.(pass := pass), i) == VersionAt(t, i);
    ConsistentTrack(s, p, t.(pass := pass));
  }

  lemma ConsistentUserStep(s: State, a: Action)
    requires Consistent(s) && IsUserAction(a)
    ensures Consistent(UserStep(s, a))
  {
    var p := a.policy;
    TrackIsSound(s, p);
    var t := TrackOf(s, p);
    var s' := UserStep(s, a);
    if s' != s {
      var o := s'.policies[p].latest;
      if t.latest.Present? && o.Present? {
        StillAdmitted(s, p, o.spec);
      }
      if a.MoveCache? {
        assert forall i: nat :: VersionAt(t.(cache := a.to), i) == VersionAt(t, i);
      } else {
        PushSound(t, o, t.pass);
      }
      ConsistentTrack(s, p, s'.policies[p]);
    }
  }

  lemma ConsistentFinalizer(s: State, p: string, reply: Reply)
    requires Consistent(s) && TrackOf(s, p).pass.AddingFinalizer?
    ensures Consistent(SetTrack(s, p, FinalizerStored(TrackOf(s, p), reply)))
  {
    TrackIsSound(s, p);
    var t := TrackOf(s, p);
    if Committed(t, t.pass.read, reply) && t.latest.Present? {
      var t' := FinalizerStored(t, reply);
      PushSound(t, t'.latest, t'.pass);
      StillAdmitted(s, p, t'.latest.spec);
      ConsistentTrack(s, p, t');
    } else {
      ConsistentPass(s, p, Idle);
    }
  }

  lemma ConsistentRelease(s: State, p: string, reply: Reply)
    requires Consistent(s) && TrackOf(s, p).pass.Releasing?
    ensures Consistent(SetTrack(s, p, Released(TrackOf(s, p), reply)))
  {
    TrackIsSound(s, p);
    var t := TrackOf(s, p);
    if Committed(t, t.pass.read, reply) {
      var t' := Released(t, reply);
      forall i: nat | i <= |t'.history|
        ensures VersionAt(t', i) == if i <= |t.history| then VersionAt(t, i) else Absent
      {
      }
      ConsistentTrack(s, p, t');
    } else {
      ConsistentPass(s, p, Idle);
    }
  }

  lemma ConsistentOperatorStep(s: State, a: Action)
    requires Consistent(s) && !IsNodeAction(a) && !IsUserAction(a) && StartsHeld(s, a)
    ensures Consistent(OperatorStep(s, a))
  {
    var p := a.policy;
    TrackIsSound(s, p);
    var s' := OperatorStep(s, a);
    if a.StoreFinalizer? && TrackOf(s, p).pass.AddingFinalizer? {
      ConsistentFinalizer(s, p, a.reply);
    } else if a.ReleaseFinalizer? && TrackOf(s, p).pass.Releasing? {
      ConsistentRelease(s, p, a.reply);
    } else if s' != s {
      ConsistentPass(s, p, TrackOf(s', p).pass);
      assert s'.policies == SetPass(s, p, TrackOf(s', p).pass).policies;
    }
  }

  /** A step keeps the bookkeeping consistent if and only if it is no start on a live version not held any more. */
  lemma ConsistentStep(s: State, a: Action)
    requires Consistent(s)
    ensures Consistent(Step(s, a)) <==> StartsHeld(s, a)
  {
    if IsUserAction(a) {
      ConsistentUserStep(s, a);
    } else if !IsNodeAction(a) {
      if StartsHeld(s, a) {
        ConsistentOperatorStep(s, a);
      } else {
        var t := Step(s, a).policies[a.policy];
        assert t.pass.Planning? && !Holds(t.latest, t.pass.spec.taint);
      }
    }
  }

  /**
   Admission and finalizer bookkeeping, over every run: stored policies never share a key, and a
   pass that acts on a decision does so under a stored finalizer, whatever is refused, lost or stale;
   that holds throughout if and only if no pass starts on a live version that is not held any more.
   */
  lemma {:induction false} ConsistentRun(s: State, actions: seq<Action>)
    requires Consistent(s)
    ensures StaysConsistent(s, actions) <==> SoundStarts(s, actions)
  {
    if actions != [] {
      ConsistentRun(s, actions[..|actions| - 1]);
      if StaysConsistent(s, actions[..|actions| - 1]) {
        ConsistentStep(Run(s, actions[..|actions| - 1]), actions[|actions| - 1]);
      }
    }
  }

  // ----- a cache that does not go back

  predicate ReadSeen(t: Track)
  {
    match t.pass
    case AddingFinalizer(read) => read <= t.cache
    case Listing(read) => read <= t.cache
    case Cleaning(read, _, _) => read <= t.cache
    case Releasing(read) => read <= t.cache
    case _ => true
  }

  /** From the version the cache shows on, live versions with the finalizer are still held. */
  ghost predicate Current(t: Track)
  {
    && ReadSeen(t)
    && forall i: nat :: t.cache <= i <= |t.history| && LiveHeld(VersionAt(t, i)) ==>
         Holds(t.latest, VersionAt(t, i).spec.taint)
  }

  predicate GoesBack(s: State, a: Action)
  {
    a.MoveCache? && a.to < TrackOf(s, a.policy).cache
  }

  ghost predicate NeverBack(s: State, actions: seq<Action>)
  {
    actions == [] || (
      && NeverBack(s, actions[..|actions| - 1])
      && !GoesBack(Run(s, actions[..|actions| - 1]), actions[|actions| - 1]))
  }

  ghost predicate UpToDate(s: State)
  {
    Consistent(s) && forall p :: p in s.policies ==> Current(s.policies[p])
  }

  lemma PushCurrent(t: Track, o: Object, pass: Pass)
    requires Current(t) && t.cache <= |t.history| && ReadSeen(t.(pass := pass))
    requires forall taint :: Holds(t.latest, taint) ==> Holds(o, taint)
    ensures Current(Push(t, o).(pass := pass))
  {
    var t' := Push(t, o).(pass := pass);
    forall i: nat | t'.cache <= i <= |t'.history| && LiveHeld(VersionAt(t', i))
      ensures Holds(t'.latest, VersionAt(t', i).spec.taint)
    {
      if i <= |t.history| {
        assert VersionAt(t', i) == VersionAt(t, i);
      }
    }
  }

  /** Letting the object go after the cache has seen the deletion. */
  lemma ReleaseCurrent(t: Track)
    requires Current(t) && TrackSound(t) && t.pass.Releasing? && t.pass.read == |t.history|
    ensures Current(Push(t, Absent).(pass := Idle))
  {
    var t' := Push(t, Absent).(pass := Idle);
    forall i: nat | t'.cache <= i <= |t'.history| ensures !LiveHeld(VersionAt(t', i)) {
      if i <= |t.history| {
        assert i == t.pass.read && VersionAt(t', i) == VersionAt(t, i);
      }
    }
  }

  lemma PassCurrent(t: Track, t': Track)
    requires Current(t) && t' == t.(cache := t'.cache, pass := t'.pass) && t.cache <= t'.cache && ReadSeen(t')
    ensures Current(t')
  {
    assert forall i: nat :: VersionAt(t', i) == VersionAt(t, i);
  }

  lemma CurrentUserStep(s: State, a: Action)
    requires Consistent(s) && IsUserAction(a) && Current(TrackOf(s, a.policy)) && !GoesBack(s, a)
    ensures Current(TrackOf(UserStep(s, a), a.policy))
  {
    TrackIsSound(s, a.policy);
    var t, t' := TrackOf(s, a.policy), TrackOf(UserStep(s, a), a.policy);
    if a.MoveCache? {
      PassCurrent(t, t');
    } else if t' != t {
      PushCurrent(t, t'.latest, t'.pass);
    }
  }

  lemma CurrentFinalizerStep(t: Track, reply: Reply)
    requires TrackSound(t) && Current(t) && t.pass.AddingFinalizer?
    ensures Current(FinalizerStored(t, reply))
  {
    var t' := FinalizerStored(t, reply);
    if Committed(t, t.pass.read, reply) && t.latest.Present? {
      PushCurrent(t, t'.latest, t'.pass);
    } else {
      PassCurrent(t, t');
    }
  }

  lemma CurrentReleaseStep(t: Track, reply: Reply)
    requires TrackSound(t) && Current(t) && t.pass.Releasing?
    ensures Current(Released(t, reply))
  {
    if Committed(t, t.pass.read, reply) {
      ReleaseCurrent(t);
    } else {
      PassCurrent(t, t.(pass := Idle));
    }
  }

  /** The other steps of the operator move its pass only, and keep what it read. */
  lemma PassSteps(s: State, a: Action)
    requires !IsNodeAction(a) && !IsUserAction(a) && ReadSeen(TrackOf(s, a.policy))
    requires !(a.StoreFinalizer? && TrackOf(s, a.policy).pass.AddingFinalizer?)
    requires !(a.ReleaseFinalizer? && TrackOf(s, a.policy).pass.Releasing?)
    ensures var t, t' := TrackOf(s, a.policy), TrackOf(OperatorStep(s, a), a.policy);
            t' == t.(pass := t'.pass) && ReadSeen(t')
  {
  }

  lemma CurrentOperatorStep(s: State, a: Action)
    requires Consistent(s) && !IsNodeAction(a) && !IsUserAction(a) && Current(TrackOf(s, a.policy))
    ensures Current(TrackOf(OperatorStep(s, a), a.policy))
  {
    TrackIsSound(s, a.policy);
    var t := TrackOf(s, a.policy);
    if a.StoreFinalizer? && t.pass.AddingFinalizer? {
      CurrentFinalizerStep(t, a.reply);
    } else if a.ReleaseFinalizer? && t.pass.Releasing? {
      CurrentReleaseStep(t, a.reply);
    } else {
      PassSteps(s, a);
      PassCurrent(t, TrackOf(OperatorStep(s, a), a.policy));
    }
  }

  lemma OtherTracksStay(s: State, a: Action, p: string)
    requires IsNodeAction(a) || a.policy != p
    ensures TrackOf(Step(s, a), p) == TrackOf(s, p)
  {
  }

  lemma CurrentStep(s: State, a: Action, p: string)
    requires Consistent(s) && Current(TrackOf(s, p)) && !GoesBack(s, a)
    ensures Current(TrackOf(Step(s, a), p))
  {
    if IsNodeAction(a) || a.policy != p {
      OtherTracksStay(s, a, p);
    } else if IsUserAction(a) {
      CurrentUserStep(s, a);
    } else {
      CurrentOperatorStep(s, a);
    }
  }

  /** With a cache that does not go back, no pass starts on a live version that is not held any more. */
  lemma {:induction false} ForwardRun(s: State, actions: seq<Action>)
    requires UpToDate(s) && NeverBack(s, actions)
    ensures UpToDate(Run(s, actions)) && SoundStarts(s, actions)
  {
    if actions != [] {
      var front, a := actions[..|actions| - 1], actions[|actions| - 1];
      var mid := Run(s, front);
      ForwardRun(s, front);
      if a.Start? && a.policy in mid.policies {
        assert Current(mid.policies[a.policy]);
      }
      ConsistentStep(mid, a);
      forall p | p in Step(mid, a).policies ensures Current(Step(mid, a).policies[p]) {
        assert Current(TrackOf(mid, p));
        CurrentStep(mid, a, p);
      }
    }
  }

  // ----- the carriers of one key

  /** Fewer carriers keep everything. */
  lemma FewerCarriers(s: State, nodes: map<string, Node>, key: string)
    requires Guarded(s, key)
    requires forall n :: Carries(nodes, n, key) ==> Carries(s.nodes, n, key)
    ensures Guarded(s.(nodes := nodes), key)
  {
  }

  lemma GuardedTrack(s: State, p: string, t: Track, key: string)
    requires Guarded(s, key) && CleanupCovers(t, s.nodes, key)
    requires HoldsKey(TrackOf(s, p).latest, key) && !HoldsKey(t.latest, key) ==> forall n :: !Carries(s.nodes, n, key)
    ensures Guarded(SetTrack(s, p, t), key)
  {
    var s' := SetTrack(s, p, t);
    forall n | Carries(s'.nodes, n, key) ensures exists q :: q in s'.policies && HoldsKey(s'.policies[q].latest, key) {
      var q :| q in s.policies && HoldsKey(s.policies[q].latest, key);
      assert HoldsKey(s'.policies[q].latest, key);
    }
  }

  lemma GuardedUserStep(s: State, a: Action, key: string)
    requires Inv(s, key) && IsUserAction(a)
    ensures Guarded(UserStep(s, a), key)
  {
    TrackIsSound(s, a.policy);
    var s' := UserStep(s, a);
    if s' != s {
      GuardedTrack(s, a.policy, s'.policies[a.policy], key);
    }
  }

  lemma RemoveEffect(nodes: map<string, Node>, n: string, k: string, x: string, key: string)
    ensures Carries(EditTaints(nodes, n, Remove(k)), x, key) ==> Carries(nodes, x, key) && (x != n || k != key)
  {
    if x == n && n in nodes && CarriesKey(nodes[n].taints, k) {
      var ts := nodes[n].taints;
      OursOfOthers(ts, k, key);
      OthersShrinks(ts, key);
      OthersShrinks(Others(ts, k), key);
    }
  }

  lemma EnsureEffect(nodes: map<string, Node>, n: string, t: Taint, x: string, key: string)
    requires t.key != key
    ensures Carries(EditTaints(nodes, n, Ensure(t)), x, key) ==> Carries(nodes, x, key)
  {
  }

  lemma EditEffect(nodes: map<string, Node>, n: string, op: TaintOp, x: string, key: string)
    requires op.Remove? || op.Key() != key
    ensures Carries(EditTaints(nodes, n, op), x, key) ==> Carries(nodes, x, key)
  {
    if op.Remove? {
      RemoveEffect(nodes, n, op.key, x, key);
    } else {
      EnsureEffect(nodes, n, op.taint, x, key);
    }
  }

  /** While a policy acts on its decision, it is the stored owner of its key. */
  lemma ActingOwnsKey(s: State, p: string, q: string, key: string)
    requires Consistent(s) && TrackOf(s, p).pass.Acting? && TaintOf(TrackOf(s, p).pass.spec).key == key
    ensures p in s.policies && HoldsKey(s.policies[p].latest, key)
    ensures q in s.policies && CleanupKey(s.policies[q], |s.policies[q].history|) == Some(key) ==> q == p
  {
    TrackIsSound(s, p);
    assert Holds(TrackOf(s, p).latest, TrackOf(s, p).pass.spec.taint);
    if q in s.policies {
      assert VersionAt(s.policies[q], |s.policies[q].history|) == s.policies[q].latest;
    }
  }

  lemma GuardedWriteTaint(s: State, p: string, reply: Reply, key: string)
    requires Inv(s, key) && TrackOf(s, p).pass.Acting?
    ensures Guarded(OperatorStep(s, WriteTaint(p, reply)), key)
  {
    var t := TrackOf(s, p);
    var w := NextWrite(t.pass);
    var nodes := if w.Some? && reply != Refused then EditTaints(s.nodes, w.value.0, w.value.1) else s.nodes;
    var s1 := s.(nodes := nodes);
    if w.Some? && w.value.1.Ensure? && w.value.1.Key() == key {
      ActingOwnsKey(s, p, p, key);
      forall q | q in s.policies ensures CleanupCovers(s.policies[q], nodes, key) {
        ActingOwnsKey(s, p, q, key);
      }
    } else {
      forall x ensures Carries(nodes, x, key) ==> Carries(s.nodes, x, key) {
        if w.Some? {
          EditEffect(s.nodes, w.value.0, w.value.1, x, key);
        }
      }
      FewerCarriers(s, nodes, key);
    }
    GuardedTrack(s1, p, t.(pass := Written(t.pass)), key);
  }

  lemma {:induction false} CarriersInMember(nodes: map<string, Node>, order: seq<string>, key: string, n: string)
    ensures n in CarriersIn(nodes, order, key) <==> n in order && Carries(nodes, n, key)
  {
    if order != [] {
      CarriersInMember(nodes, order[1..], key, n);
      assert order == [order[0]] + order[1..];
    }
  }

  lemma GuardedListForCleanup(s: State, p: string, order: seq<string>, key: string)
    requires Inv(s, key) && TrackOf(s, p).pass.Listing? && forall n :: n in s.nodes ==> n in order
    ensures Guarded(OperatorStep(s, ListForCleanup(p, order)), key)
  {
    TrackIsSound(s, p);
    var t := TrackOf(s, p);
    forall n ensures n in CarriersIn(s.nodes, order, key) <==> n in order && Carries(s.nodes, n, key) {
      CarriersInMember(s.nodes, order, key, n);
    }
    GuardedTrack(s, p, t.(pass := ListedForCleanup(s.nodes, t, order)), key);
  }

  /** A clean step takes nothing but its own key, and that off the first node on its list unless refused. */
  lemma CleanedCarriers(s: State, p: string, reply: Reply, key: string, x: string)
    requires TrackOf(s, p).pass.Cleaning? && Carries(OperatorStep(s, CleanTaint(p, reply)).nodes, x, key)
    ensures Carries(s.nodes, x, key)
    ensures
      var t := TrackOf(s, p);
      t.pass.todo != [] && CleanupKey(t, t.pass.read) == Some(key) && reply != Refused ==> x != t.pass.todo[0]
  {
    var t := TrackOf(s, p);
    var k := CleanupKey(t, t.pass.read);
    if t.pass.todo != [] && k.Some? {
      RemoveEffect(s.nodes, t.pass.todo[0], k.value, x, key);
    }
  }

  lemma CleanedCovers(s: State, p: string, reply: Reply, key: string)
    requires TrackOf(s, p).pass.Cleaning? && CleanupCovers(TrackOf(s, p), s.nodes, key)
    ensures var t := TrackOf(s, p);
            CleanupCovers(t.(pass := Cleaned(s.nodes, t.pass, reply)), OperatorStep(s, CleanTaint(p, reply)).nodes, key)
  {
    var t := TrackOf(s, p);
    var nodes := OperatorStep(s, CleanTaint(p, reply)).nodes;
    forall x | Carries(nodes, x, key)
      ensures Carries(s.nodes, x, key)
      ensures t.pass.todo != [] && CleanupKey(t, t.pass.read) == Some(key) && reply != Refused ==> x != t.pass.todo[0]
    {
      CleanedCarriers(s, p, reply, key, x);
    }
  }

  /** Fewer carriers and a pass that overlooks none of them, under the same stored version. */
  lemma GuardedSweep(s: State, nodes: map<string, Node>, p: string, pass: Pass, key: string)
    requires Guarded(s, key) && CleanupCovers(TrackOf(s, p).(pass := pass), nodes, key)
    requires forall n :: Carries(nodes, n, key) ==> Carries(s.nodes, n, key)
    ensures Guarded(SetPass(s.(nodes := nodes), p, pass), key)
  {
    FewerCarriers(s, nodes, key);
    GuardedTrack(s.(nodes := nodes), p, TrackOf(s, p).(pass := pass), key);
  }

  lemma CleanStep(s: State, p: string, reply: Reply)
    requires TrackOf(s, p).pass.Cleaning?
    ensures OperatorStep(s, CleanTaint(p, reply)) ==
            SetPass(s.(nodes := OperatorStep(s, CleanTaint(p, reply)).nodes), p,
                    Cleaned(s.nodes, TrackOf(s, p).pass, reply))
  {
  }

  lemma GuardedCleanTaint(s: State, p: string, reply: Reply, key: string)
    requires Inv(s, key) && TrackOf(s, p).pass.Cleaning?
    ensures Guarded(OperatorStep(s, CleanTaint(p, reply)), key)
  {
    var nodes := OperatorStep(s, CleanTaint(p, reply)).nodes;
    forall x | Carries(nodes, x, key) ensures Carries(s.nodes, x, key) {
      CleanedCarriers(s, p, reply, key, x);
    }
    CleanedCovers(s, p, reply, key);
    GuardedSweep(s, nodes, p, Cleaned(s.nodes, TrackOf(s, p).pass, reply), key);
    CleanStep(s, p, reply);
  }

  /** The finalizer goes only when no node carries the key any more. */
  lemma GuardedRelease(s: State, p: string, reply: Reply, key: string)
    requires Inv(s, key) && TrackOf(s, p).pass.Releasing?
    ensures Guarded(OperatorStep(s, ReleaseFinalizer(p, reply)), key)
  {
    TrackIsSound(s, p);
    var t := TrackOf(s, p);
    assert VersionAt(t, |t.history|) == t.latest;
    GuardedTrack(s, p, Released(t, reply), key);
  }

  lemma GuardedOperatorStep(s: State, a: Action, key: string)
    requires Inv(s, key) && !IsNodeAction(a) && !IsUserAction(a)
    ensures Guarded(OperatorStep(s, a), key)
  {
    var p := a.policy;
    var t := TrackOf(s, p);
    if a.WriteTaint? && t.pass.Acting? {
      GuardedWriteTaint(s, p, a.reply, key);
    } else if a.ListForCleanup? && t.pass.Listing? && forall n :: n in s.nodes ==> n in a.order {
      GuardedListForCleanup(s, p, a.order, key);
    } else if a.CleanTaint? && t.pass.Cleaning? {
      GuardedCleanTaint(s, p, a.reply, key);
    } else if a.ReleaseFinalizer? && t.pass.Releasing? {
      GuardedRelease(s, p, a.reply, key);
    } else if OperatorStep(s, a) != s {
      GuardedTrack(s, p, OperatorStep(s, a).policies[p], key);
    }
  }

  /** One step of anything keeps the invariant. */
  lemma StepKeeps(s: State, a: Action, key: string)
    requires Inv(s, key) && LeavesKeyAlone(s, a, key) && StartsHeld(s, a)
    ensures Inv(Step(s, a), key)
  {
    ConsistentStep(s, a);
    if IsNodeAction(a) {
      FewerCarriers(s, NodeStep(s, a).nodes, key);
      assert NodeStep(s, a) == s.(nodes := NodeStep(s, a).nodes);
    } else if IsUserAction(a) {
      GuardedUserStep(s, a, key);
    } else {
      GuardedOperatorStep(s, a, key);
    }
  }

  lemma {:induction false} RunKeeps(s: State, actions: seq<Action>, key: string)
    requires Inv(s, key) && QuietRun(s, actions, key) && SoundStarts(s, actions)
    ensures Inv(Run(s, actions), key)
  {
    if actions != [] {
      RunKeeps(s, actions[..|actions| - 1], key);
      StepKeeps(Run(s, actions[..|actions| - 1]), actions[|actions| - 1], key);
    }
  }

  /** A cluster before any policy exists, on which no node carries the key. */
  ghost predicate Initial(s: State, key: string)
  {
    s.policies == map[] && forall n :: !Carries(s.nodes, n, key)
  }

  /**
   No stranded taints: after any run from a cluster without policies in which no pass starts on a live
   version that is not held any more, a node that carries the key has its owner stored with its finalizer;
   so once no stored policy has the key, no node carries it.
   */
  lemma NoStrandedTaint(s: State, actions: seq<Action>, key: string, n: string)
    requires Initial(s, key) && QuietRun(s, actions, key) && SoundStarts(s, actions)
    requires Carries(Run(s, actions).nodes, n, key)
    ensures exists p :: p in Run(s, actions).policies && HoldsKey(Run(s, actions).policies[p].latest, key)
  {
    RunKeeps(s, actions, key);
  }

  /** In particular after every run in which the cache lags, however far, but does not go back. */
  lemma LaggingStrandsNothing(s: State, actions: seq<Action>, key: string, n: string)
    requires Initial(s, key) && QuietRun(s, actions, key) && NeverBack(s, actions)
    requires Carries(Run(s, actions).nodes, n, key)
    ensures exists p :: p in Run(s, actions).policies && HoldsKey(Run(s, actions).policies[p].latest, key)
  {
    ForwardRun(s, actions);
    NoStrandedTaint(s, actions, key, n);
  }

  /**
   The other starts are not merely suspicious: whenever a pass starts on a live version while nobody holds
   its key any more, and its decision has a node to apply to, three steps strand the taint there.
   */
  lemma UnheldStartStrands(s: State, p: string, view: Option<map<string, Node>>, order: seq<string>, now: int)
    requires p in s.policies && s.policies[p].pass.Idle?
    requires LiveHeld(VersionAt(s.policies[p], s.policies[p].cache))
    requires var spec := VersionAt(s.policies[p], s.policies[p].cache).spec;
             && spec.taint.Some?
             && (forall q :: q in s.policies ==> !HoldsKey(s.policies[q].latest, spec.taint.value.key))
             && var pass := Planned(s.nodes, s.policies[p].(pass := Planning(spec)), view, order, now);
                pass.Acting? && pass.applies != [] && pass.applies[0] in s.nodes
    ensures
      var spec := VersionAt(s.policies[p], s.policies[p].cache).spec;
      var pass := Planned(s.nodes, s.policies[p].(pass := Planning(spec)), view, order, now);
      var s' := Step(Step(Step(s, Start(p)), Plan(p, view, order, now)), WriteTaint(p, Acked));
      && Carries(s'.nodes, pass.applies[0], spec.taint.value.key)
      && forall q :: q in s'.policies ==> !HoldsKey(s'.policies[q].latest, spec.taint.value.key)
  {
    var spec := VersionAt(s.policies[p], s.policies[p].cache).spec;
    var pass := Planned(s.nodes, s.policies[p].(pass := Planning(spec)), view, order, now);
    StartAndPlan(s, p, spec, view, order, now);
    WriteStep(SetPass(s, p, pass), p);
    Applies(s.nodes, pass.applies[0], spec.taint.value);
  }

  lemma StartAndPlan(s: State, p: string, spec: PolicySpec, view: Option<map<string, Node>>,
                     order: seq<string>, now: int)
    requires p in s.policies && s.policies[p].pass.Idle?
    requires var o := VersionAt(s.policies[p], s.policies[p].cache); LiveHeld(o) && o.spec == spec
    ensures Step(Step(s, Start(p)), Plan(p, view, order, now))
         == SetPass(s, p, Planned(s.nodes, s.policies[p].(pass := Planning(spec)), view, order, now))
  {
    var planning := SetPass(s, p, Planning(spec));
    assert Step(s, Start(p)) == planning;
    assert planning.policies[p] == s.policies[p].(pass := Planning(spec));
  }

  lemma WriteStep(s: State, p: string)
    requires p in s.policies && s.policies[p].pass.Acting? && s.policies[p].pass.applies != []
    ensures
      var pass := s.policies[p].pass;
      var nodes := EditTaints(s.nodes, pass.applies[0], Ensure(TaintOf(pass.spec)));
      Step(s, WriteTaint(p, Acked)) == SetPass(s.(nodes := nodes), p, Written(pass))
  {
  }

  lemma Applies(nodes: map<string, Node>, n: string, taint: Taint)
    requires n in nodes
    ensures Carries(EditTaints(nodes, n, Ensure(taint)), n, taint.key)
  {
    var longer := nodes[n].taints + [taint];
    assert longer[|nodes[n].taints|].key == taint.key;
  }

  const TAINT := Taint("k", "", "NoExecute")
  const SPEC := PolicySpec(AnyNode, "C", "True", Some(TAINT), 0, 0, 100)
  const SICK := Node(map[], [NodeCondition("C", "True", Some(0))], [])
  const GONE := Track([Absent, Present(SPEC, false, true), Present(SPEC, true, true)], Absent, 3, Idle)

  lemma GoneIsSafe()
    ensures Inv(State(map["p" := GONE], map["n" := SICK]), "k")
  {
    var s := State(map["p" := GONE], map["n" := SICK]);
    assert TrackSound(GONE);
    assert !CarriesKey(SICK.taints, "k");
    assert forall n :: !Carries(s.nodes, n, "k");
  }

  /**
   It happens when the cache goes back: the store has already let policy "p" go, but the cache shows again
   the live version it showed before. Three steps later its taint is on a node and nobody owns it.
   */
  lemma RewoundCacheStrands()
    ensures
      var s := State(map["p" := GONE], map["n" := SICK]);
      var s0 := Step(s, MoveCache("p", 1));
      var s1 := Step(s0, Start("p"));
      var s2 := Step(s1, Plan("p", None, ["n"], 5));
      var s3 := Step(s2, WriteTaint("p", Acked));
      && Inv(s, "k") && Inv(s0, "k") && !StartsHeld(s0, Start("p"))
      && Carries(s3.nodes, "n", "k")
      && forall p :: p in s3.policies ==> !HoldsKey(s3.policies[p].latest, "k")
  {
    GoneIsSafe();
    StepKeeps(State(map["p" := GONE], map["n" := SICK]), MoveCache("p", 1), "k");
    GoneRewound();
    GonePlans();
    UnheldStartStrands(State(map["p" := GONE.(cache := 1)], map["n" := SICK]), "p", None, ["n"], 5);
  }

  lemma GoneRewound()
    ensures Step(State(map["p" := GONE], map["n" := SICK]), MoveCache("p", 1))
         == State(map["p" := GONE.(cache := 1)], map["n" := SICK])
  {
  }

  lemma GonePlans()
    ensures Planned(map["n" := SICK], GONE.(cache := 1, pass := Planning(SPEC)), None, ["n"], 5)
         == Acting(SPEC, ["n"], [])
  {
    OneNodeApplied("n", SICK, SPEC, TAINT, 5);
  }

  /** A single matched, long-stable, untainted node is applied at once. */
  lemma OneNodeApplied(n: string, node: Node, spec: PolicySpec, taint: Taint, now: int)
    requires spec == PolicySpec(AnyNode, "C", "True", Some(taint), 0, 0, 100)
    requires node.conditions == [NodeCondition("C", "True", Some(0))] && !CarriesKey(node.taints, taint.key) && now >= 0
    ensures var p := ProjectPolicy(spec).value;
            var d := DecisionFor(p, Facts(Listed(map[n := node], [n]), p), now);
            d.applyTaint == [n] && d.removeTaint == []
  {
    var p := ProjectPolicy(spec).value;
    var view := map[n := node];
    assert [n][1..] == [];
    assert Listed(view, [n]) == [NamedNode(n, node)] + Listed(view, []);
    assert ConditionOf(node.conditions, "C") == ConditionFact("True", Some(0));
    assert Facts(Listed(view, [n]), p) == [Fact(n, node, p)];
    OneFactApplied(p, Fact(n, node, p), now);
  }

  lemma OneFactApplied(p: Policy, fact: NodeFact, now: int)
    requires p.maxAffectedPercent >= 100 && InScope(p, fact) && Matches(p, fact) && !fact.hasTaint
    requires Dated(fact) && Due(p, fact) <= now
    ensures DecisionFor(p, [fact], now).applyTaint == [fact.name] && DecisionFor(p, [fact], now).removeTaint == []
  {
    GuardExtremes(p, [fact]);
    var m := MomentOf(p, [fact], now);
    OneName(m, Applying, fact);
    OneName(m, ScopedOut, fact);
    OneName(m, Removing, fact);
  }

  lemma OneName(m: Moment, g: Group, fact: NodeFact)
    ensures Names(m, g, [fact]) == if Belongs(m, g, fact) then [fact.name] else []
  {
    NamesAppend(m, g, [], fact);
    assert [] + [fact] == [fact];
  }
}
