/**
 The operator as it is set up: one worker runs one pass at a time, and one watch delivers the changes of
 all policies in order. Then no step strips a key, so every stored policy runs as if it were alone.
 */
module OneWorker {
  import opened Domain
  import opened Fleet
  import opened NoStrandedTaints
  import opened NonInterference

  predicate AllIdle(s: State)
  {
    forall q :: q in s.policies ==> s.policies[q].pass.Idle?
  }

  /** The cache shows every policy as it was stored at one and the same earlier moment. */
  ghost predicate Shows(s: State, earlier: State)
  {
    forall q: string :: TrackOf(s, q).cache == |TrackOf(earlier, q).history|
  }

  /** One worker: a pass starts only when no other is under way. */
  ghost predicate OneAtATime(s: State, actions: seq<Action>)
  {
    actions == [] || (
      var front := actions[..|actions| - 1];
      && OneAtATime(s, front)
      && (actions[|actions| - 1].Start? ==> AllIdle(Run(s, front))))
  }

  /** One watch: whenever a pass starts, the cache shows a moment of the run so far. */
  ghost predicate InOrder(s: State, actions: seq<Action>)
  {
    actions == [] || (
      var front := actions[..|actions| - 1];
      && InOrder(s, front)
      && (actions[|actions| - 1].Start? ==>
            exists m :: 0 <= m <= |front| && Shows(Run(s, front), Run(s, front[..m]))))
  }

  /** One worker, one watch, and a cache that does not go back. */
  ghost predicate AsSetUp(s: State, actions: seq<Action>)
  {
    OneAtATime(s, actions) && InOrder(s, actions) && NeverBack(s, actions)
  }

  lemma {:induction false} RunExtends(s: State, actions: seq<Action>, m: nat, q: string)
    requires m <= |actions|
    ensures Extends(TrackOf(Run(s, actions[..m]), q), TrackOf(Run(s, actions), q))
  {
    if m == |actions| {
      assert actions[..m] == actions;
    } else {
      var front := actions[..|actions| - 1];
      assert front[..m] == actions[..m];
      RunExtends(s, front, m, q);
      var a := actions[|actions| - 1];
      StepMoves(Run(s, front), a, q);
      MovesExtend(TrackOf(Run(s, front), q), TrackOf(Step(Run(s, front), a), q));
    }
  }

  // ----- what the cache shows

  /** No two policies the cache shows share the key. */
  ghost predicate ShownOnce(s: State, key: string)
  {
    forall p, q ::
      && p in s.policies && CleanupKey(s.policies[p], s.policies[p].cache) == Some(key)
      && q in s.policies && CleanupKey(s.policies[q], s.policies[q].cache) == Some(key)
      ==> p == q
  }

  lemma {:induction false} ConsistentBefore(s: State, actions: seq<Action>, m: nat)
    requires Consistent(s) && SoundStarts(s, actions) && m <= |actions|
    ensures Consistent(Run(s, actions[..m]))
  {
    if m == |actions| {
      assert actions[..m] == actions;
      ConsistentRun(s, actions);
    } else {
      assert actions[..|actions| - 1][..m] == actions[..m];
      ConsistentBefore(s, actions[..|actions| - 1], m);
    }
  }

  lemma OneMomentShowsOnce(s: State, actions: seq<Action>, m: nat, key: string)
    requires Consistent(s) && SoundStarts(s, actions) && m <= |actions|
    requires Shows(Run(s, actions), Run(s, actions[..m]))
    ensures ShownOnce(Run(s, actions), key)
  {
    var now, then_ := Run(s, actions), Run(s, actions[..m]);
    ConsistentBefore(s, actions, m);
    forall p | p in now.policies && CleanupKey(now.policies[p], now.policies[p].cache) == Some(key)
      ensures p in then_.policies && then_.policies[p].latest.Present? && then_.policies[p].latest.spec.taint.Some?
           && then_.policies[p].latest.spec.taint.value.key == key
    {
      RunExtends(s, actions, m, p);
      var t := TrackOf(then_, p);
      assert VersionAt(now.policies[p], |t.history|) == VersionAt(t, |t.history|) == t.latest;
    }
  }

  /** While an object has its finalizer, the cache already shows it, with the taint it still has. */
  ghost predicate HeldIsShown(t: Track)
  {
    t.latest.Present? && t.latest.finalizer ==>
      forall i: nat :: t.cache <= i <= |t.history| ==>
        VersionAt(t, i).Present? && VersionAt(t, i).spec.taint == t.latest.spec.taint
  }

  /** The finalizer is kept with the taint, or was just stored over the version the cache shows. */
  lemma FinalizerMoves(s: State, a: Action, q: string)
    requires TrackSound(TrackOf(s, q)) && ReadSeen(TrackOf(s, q))
    ensures
      var t, o := TrackOf(s, q), TrackOf(Step(s, a), q).latest;
      o.Present? && o.finalizer ==>
        t.latest.Present? && o.spec.taint == t.latest.spec.taint && (t.latest.finalizer || t.cache == |t.history|)
  {
  }

  lemma HeldStaysShown(s: State, a: Action, q: string)
    requires TrackSound(TrackOf(s, q)) && ReadSeen(TrackOf(s, q)) && HeldIsShown(TrackOf(s, q)) && !GoesBack(s, a)
    ensures HeldIsShown(TrackOf(Step(s, a), q))
  {
    var t, t' := TrackOf(s, q), TrackOf(Step(s, a), q);
    StepMoves(s, a, q);
    MovesExtend(t, t');
    FinalizerMoves(s, a, q);
    assert VersionAt(t, |t.history|) == t.latest;
  }

  // ----- cleanups of a key exclude any other owner of it

  /** At most one pass is under way, held objects are shown, and whoever cleans a key up has no successor. */
  ghost predicate Orderly(s: State, key: string)
  {
    && (forall p, q :: p in s.policies && q in s.policies && p != q ==>
          s.policies[p].pass.Idle? || s.policies[q].pass.Idle?)
    && (forall p :: p in s.policies ==> HeldIsShown(s.policies[p]))
    && (forall p, q :: p in s.policies && q in s.policies && p != q && CleansKey(s.policies[q], key) ==>
          !HoldsKey(s.policies[p].latest, key))
  }

  /** Only a pass that starts turns an idle policy busy. */
  lemma PassMoves(s: State, a: Action, q: string)
    ensures
      var t, t' := TrackOf(s, q), TrackOf(Step(s, a), q);
      && (t'.pass.Idle? || !t.pass.Idle? || (a.Start? && a.policy == q))
      && (a.Start? ==> t'.(pass := Idle) == t.(pass := Idle))
  {
  }

  /** A pass that cleans the key did so before the step, or has just started on a deletion it read. */
  lemma CleanupMoves(s: State, a: Action, q: string, key: string)
    requires TrackSound(TrackOf(s, q)) && CleansKey(TrackOf(Step(s, a), q), key)
    ensures
      var t := TrackOf(s, q);
      CleansKey(t, key) || (a.Start? && a.policy == q && CleanupKey(t, t.cache) == Some(key))
  {
    StepMoves(s, a, q);
    MovesExtend(TrackOf(s, q), TrackOf(Step(s, a), q));
    DeletingMoves(s, a, q);
  }

  /** Only storing the finalizer makes an object hold its key. */
  lemma HoldMoves(s: State, a: Action, p: string, key: string)
    requires Consistent(s)
    ensures HoldsKey(TrackOf(Step(s, a), p).latest, key) ==>
              HoldsKey(TrackOf(s, p).latest, key) ||
              (a.StoreFinalizer? && a.policy == p && TrackOf(s, p).pass.AddingFinalizer?)
  {
  }

  lemma OrderlyStep(s: State, a: Action, key: string)
    requires UpToDate(s) && !GoesBack(s, a) && Orderly(s, key)
    requires a.Start? ==> AllIdle(s) && ShownOnce(s, key)
    ensures Orderly(Step(s, a), key)
  {
    var s' := Step(s, a);
    forall p | p in s'.policies ensures HeldIsShown(s'.policies[p]) {
      TrackIsSound(s, p);
      assert ReadSeen(TrackOf(s, p));
      HeldStaysShown(s, a, p);
    }
    forall p, q | p in s'.policies && q in s'.policies && p != q
      ensures s'.policies[p].pass.Idle? || s'.policies[q].pass.Idle?
      ensures CleansKey(s'.policies[q], key) ==> !HoldsKey(s'.policies[p].latest, key)
    {
      PassMoves(s, a, p);
      PassMoves(s, a, q);
      HoldMoves(s, a, p, key);
      if CleansKey(s'.policies[q], key) {
        TrackIsSound(s, q);
        CleanupMoves(s, a, q, key);
      }
    }
  }

  lemma {:induction false} OrderlyRun(s: State, actions: seq<Action>, key: string)
    requires Initial(s, key) && AsSetUp(s, actions)
    ensures Orderly(Run(s, actions), key)
  {
    if actions != [] {
      var front, a := actions[..|actions| - 1], actions[|actions| - 1];
      OrderlyRun(s, front, key);
      ForwardRun(s, front);
      if a.Start? {
        var m :| 0 <= m <= |front| && Shows(Run(s, front), Run(s, front[..m]));
        OneMomentShowsOnce(s, front, m, key);
      }
      OrderlyStep(Run(s, front), a, key);
    }
  }

  /** After any such run, no step at all strips a stored policy's key. */
  lemma NothingStrips(s: State, actions: seq<Action>, a: Action, p: string, key: string)
    requires Initial(s, key) && QuietRun(s, actions, key) && AsSetUp(s, actions)
    requires StoredWith(Run(s, actions), p, key)
    ensures !Strips(Run(s, actions), a, p, key)
  {
    var now := Run(s, actions);
    ForwardRun(s, actions);
    RunKeeps(s, actions, key);
    OrderlyRun(s, actions, key);
    if Strips(now, a, p, key) {
      var owner :| owner in now.policies && HoldsKey(now.policies[owner].latest, key);
      assert owner == p;
      assert CleansKey(now.policies[a.policy], key);
    }
  }

  lemma {:induction false} NeverStrippedIn(s: State, before: seq<Action>, actions: seq<Action>, p: string, key: string)
    requires Initial(s, key) && QuietRun(s, before + actions, key) && AsSetUp(s, before + actions)
    requires StoredUntil(Run(s, before), actions, p, key)
    ensures NeverStripped(Run(s, before), actions, p, key)
  {
    if actions != [] {
      var front := actions[..|actions| - 1];
      assert (before + actions)[..|before + actions| - 1] == before + front;
      NeverStrippedIn(s, before, front, p, key);
      RunConcat(s, before, front);
      NothingStrips(s, before + front, actions[|actions| - 1], p, key);
    }
  }

  lemma {:induction false} NeverBackSince(s: State, before: seq<Action>, actions: seq<Action>, p: string)
    requires NeverBack(s, before + actions)
    ensures NeverBack(s, before) && NeverBack(Run(s, before), actions) && NeverBackFor(Run(s, before), actions, p)
  {
    if actions == [] {
      assert before + actions == before;
    } else {
      var front := actions[..|actions| - 1];
      assert (before + actions)[..|before + actions| - 1] == before + front;
      NeverBackSince(s, before, front, p);
      RunConcat(s, before, front);
    }
  }

  /**
   Non-interference of the operator as set up: from a cluster without policies, in any run in which other
   clients do not spread the key, a policy looks alone for as long as it is stored, its own release included.
   */
  lemma OneWorkerRunsAlone(s: State, before: seq<Action>, actions: seq<Action>, p: string, key: string)
    requires Initial(s, key) && QuietRun(s, before + actions, key) && AsSetUp(s, before + actions)
    requires p in Run(s, before).policies && KeepsTo(Run(s, before).policies[p], key)
    requires StoredUntil(Run(s, before), actions, p, key)
    ensures LooksAlone(Run(s, before), actions, p, key)
  {
    NeverBackSince(s, before, actions, p);
    ForwardRun(s, before);
    ForwardRun(Run(s, before), actions);
    NeverStrippedIn(s, before, actions, p, key);
    RunsAlone(Run(s, before), actions, p, key);
  }
}
