/** What a taint write answers, and when: no fault and no rival means success. */
module PatchReplies {
  import opened Domain
  import opened TaintList
  import opened TaintPatch

  // ----- one attempt

  /** The node as the attempt reads it, and as its patch finds it. */
  function Read(s: Store, a: Attempt): Store
  {
    PerformAll(s, a.beforeGet)
  }

  function Found(s: Store, a: Attempt): Store
  {
    PerformAll(PerformAll(s, a.beforeGet), a.beforePatch)
  }

  /** The list that was read still lacks what is to be ensured, or still has what is to be removed. */
  predicate Due(s: Store, name: string, op: TaintOp, a: Attempt)
  {
    && !a.getRefused && name in Read(s, a).nodes
    && var taints := Read(s, a).nodes[name].taints;
       match op
       case Ensure(t) => !CarriesKey(taints, t.key)
       case Remove(k) => CarriesKey(taints, k)
  }

  /** The node is still there, in the version that was read. */
  predicate StillThere(s: Store, name: string, a: Attempt)
    requires name in Read(s, a).nodes
  {
    name in Found(s, a).nodes && Found(s, a).nodes[name].version == Read(s, a).nodes[name].version
  }

  /** Exactly when one attempt gives which answer. */
  lemma AttemptReply(s: Store, name: string, op: TaintOp, a: Attempt)
    ensures
      var c := TryOnce(s, name, op, a);
      var due := Due(s, name, op, a);
      && (c.error == Some(Unavailable) <==>
            a.getRefused || (due && (a.patchFault.Refused? || (a.patchFault.LostReply? && StillThere(s, name, a)))))
      && (c.error == Some(NotFound) <==>
            && !a.getRefused
            && (name !in Read(s, a).nodes || (due && !a.patchFault.Refused? && name !in Found(s, a).nodes)))
      && (c.error == Some(Conflict) <==>
            due && !a.patchFault.Refused? && name in Found(s, a).nodes && !StillThere(s, name, a))
      && (c.error == None && !c.changed <==> !a.getRefused && name in Read(s, a).nodes && !due)
      && (c.changed <==> due && a.patchFault.NoFault? && StillThere(s, name, a))
      && (c.changed ==> c.error == None)
  {
  }

  /** Exactly what one attempt leaves: its edit, if its patch reached an unchanged node, and else nothing of its own. */
  lemma AttemptStore(s: Store, name: string, op: TaintOp, a: Attempt)
    ensures
      var c := TryOnce(s, name, op, a);
      if Due(s, name, op, a) then
        if !a.patchFault.Refused? && StillThere(s, name, a) then
          c.store == Put(Found(s, a), name, Wanted(op, Read(s, a).nodes[name].taints))
        else c.store == Found(s, a)
      else c.store == Read(s, a)
  {
  }

  /** The list an edit is to leave. */
  function Wanted(op: TaintOp, taints: seq<Taint>): seq<Taint>
  {
    match op
    case Ensure(t) => taints + [t]
    case Remove(k) => Others(taints, k)
  }

  /** Without a fault, on a node that is there and that nobody else writes to in between, an attempt succeeds. */
  lemma CalmAttempt(s: Store, name: string, op: TaintOp, a: Attempt)
    requires !a.getRefused && a.patchFault.NoFault? && name in Read(s, a).nodes && !WritesTo(a.beforePatch, name)
    ensures
      var c := TryOnce(s, name, op, a);
      && c.error == None
      && (c.changed <==> (CarriesKey(Read(s, a).nodes[name].taints, op.Key()) <==> op.Remove?))
  {
    AttemptReply(s, name, op, a);
    Untouched(Read(s, a), a.beforePatch, name);
  }

  // ----- a call

  /** The store after the first `k` attempts. */
  function AfterAttempts(s: Store, name: string, op: TaintOp, attempts: seq<Attempt>, k: nat): Store
    requires k <= |attempts|
    decreases k
  {
    if k == 0 then s else AfterAttempts(TryOnce(s, name, op, attempts[0]).store, name, op, attempts[1..], k - 1)
  }

  /** The attempt `k` of the call. */
  function AttemptAt(s: Store, name: string, op: TaintOp, attempts: seq<Attempt>, k: nat): Call
    requires k < |attempts|
  {
    TryOnce(AfterAttempts(s, name, op, attempts, k), name, op, attempts[k])
  }

  lemma LaterAttempt(s: Store, name: string, op: TaintOp, attempts: seq<Attempt>, k: nat)
    requires 0 < k < |attempts|
    ensures AttemptAt(s, name, op, attempts, k)
         == AttemptAt(TryOnce(s, name, op, attempts[0]).store, name, op, attempts[1..], k - 1)
  {
  }

  /** The call `c`, given the attempt it ended with, of this many. */
  predicate AnswersAs(c: Call, last: Call, available: nat)
  {
    && c.error == last.error && c.changed == last.changed && c.store == last.store
    && (last.error == Some(Conflict) ==> c.attempts == available)
  }

  lemma RetryStep(s: Store, name: string, op: TaintOp, attempts: seq<Attempt>)
    requires |attempts| > 1 && TryOnce(s, name, op, attempts[0]).error == Some(Conflict)
    ensures
      var c := Retrying(s, name, op, attempts);
      var rest := Retrying(TryOnce(s, name, op, attempts[0]).store, name, op, attempts[1..]);
      c.error == rest.error && c.changed == rest.changed && c.store == rest.store && c.attempts == 1 + rest.attempts
  {
  }

  lemma OnlyAttempt(s: Store, name: string, op: TaintOp, attempts: seq<Attempt>)
    requires attempts != [] && (|attempts| == 1 || TryOnce(s, name, op, attempts[0]).error != Some(Conflict))
    ensures Retrying(s, name, op, attempts) == AttemptAt(s, name, op, attempts, 0)
    ensures AttemptAt(s, name, op, attempts, 0).attempts == 1
  {
  }

  /** A call answers as its last attempt does, and that one was not beaten by a writer unless none is left. */
  lemma {:induction false} LastAttempt(s: Store, name: string, op: TaintOp, attempts: seq<Attempt>)
    requires attempts != []
    ensures var c := Retrying(s, name, op, attempts);
            AnswersAs(c, AttemptAt(s, name, op, attempts, c.attempts - 1), |attempts|)
    decreases |attempts|
  {
    var store := TryOnce(s, name, op, attempts[0]).store;
    if TryOnce(s, name, op, attempts[0]).error == Some(Conflict) && |attempts| > 1 {
      var rest := attempts[1..];
      RetryStep(s, name, op, attempts);
      LastAttempt(store, name, op, rest);
      LaterAttempt(s, name, op, attempts, Retrying(store, name, op, rest).attempts);
    } else {
      OnlyAttempt(s, name, op, attempts);
    }
  }

  /** Every attempt before the last one was beaten by a writer, and was followed by another. */
  lemma {:induction false} EarlierAttempt(s: Store, name: string, op: TaintOp, attempts: seq<Attempt>, k: nat)
    requires attempts != [] && k < Retrying(s, name, op, attempts).attempts - 1
    ensures AttemptAt(s, name, op, attempts, k).error == Some(Conflict)
    decreases |attempts|
  {
    if k > 0 {
      EarlierAttempt(TryOnce(s, name, op, attempts[0]).store, name, op, attempts[1..], k - 1);
      LaterAttempt(s, name, op, attempts, k);
    }
  }

  /** Which attempts a call makes, and what it answers: those of the last one. */
  lemma CallReply(s: Store, name: string, op: TaintOp, attempts: seq<Attempt>)
    requires attempts != []
    ensures
      var c := Retrying(s, name, op, attempts);
      var last := AttemptAt(s, name, op, attempts, c.attempts - 1);
      && c.error == last.error && c.changed == last.changed && c.store == last.store
      && (last.error == Some(Conflict) ==> c.attempts == |attempts|)
    ensures forall k: nat :: k < Retrying(s, name, op, attempts).attempts - 1 ==>
              AttemptAt(s, name, op, attempts, k).error == Some(Conflict)
  {
    LastAttempt(s, name, op, attempts);
    forall k: nat | k < Retrying(s, name, op, attempts).attempts - 1
      ensures AttemptAt(s, name, op, attempts, k).error == Some(Conflict)
    {
      EarlierAttempt(s, name, op, attempts, k);
    }
  }

  /** A call reports an unavailable server only if a fault hit its last attempt. */
  lemma UnavailableOnlyByFault(s: Store, name: string, op: TaintOp, attempts: seq<Attempt>)
    requires attempts != [] && Retrying(s, name, op, attempts).error == Some(Unavailable)
    ensures var a := attempts[Retrying(s, name, op, attempts).attempts - 1]; a.getRefused || !a.patchFault.NoFault?
  {
    CallReply(s, name, op, attempts);
    var k := Retrying(s, name, op, attempts).attempts - 1;
    AttemptReply(AfterAttempts(s, name, op, attempts, k), name, op, attempts[k]);
  }

  /**
   Progress: as soon as an attempt meets no fault and no rival on a node that is there, the call ends with
   success, and says whether the list it read needed the edit.
   */
  lemma CalmAttemptEnds(s: Store, name: string, op: TaintOp, attempts: seq<Attempt>, k: nat)
    requires k < |attempts| && k < Retrying(s, name, op, attempts).attempts
    requires
      var a, before := attempts[k], AfterAttempts(s, name, op, attempts, k);
      !a.getRefused && a.patchFault.NoFault? && name in Read(before, a).nodes && !WritesTo(a.beforePatch, name)
    ensures
      var c := Retrying(s, name, op, attempts);
      var taints := Read(AfterAttempts(s, name, op, attempts, k), attempts[k]).nodes[name].taints;
      && c.error == None && c.attempts == k + 1
      && (c.changed <==> (CarriesKey(taints, op.Key()) <==> op.Remove?))
  {
    CallReply(s, name, op, attempts);
    assert k < Retrying(s, name, op, attempts).attempts - 1 ==>
        AttemptAt(s, name, op, attempts, k).error == Some(Conflict);
    CalmAttempt(AfterAttempts(s, name, op, attempts, k), name, op, attempts[k]);
  }

  /** In particular the first attempt. */
  lemma CalmCall(s: Store, name: string, op: TaintOp, schedule: Schedule)
    requires !schedule[0].getRefused && schedule[0].patchFault.NoFault?
    requires name in Read(s, schedule[0]).nodes && !WritesTo(schedule[0].beforePatch, name)
    ensures
      var c := Retrying(s, name, op, schedule);
      && c.error == None && c.attempts == 1
      && (c.changed <==> (CarriesKey(Read(s, schedule[0]).nodes[name].taints, op.Key()) <==> op.Remove?))
  {
    CalmAttemptEnds(s, name, op, schedule, 0);
  }

  /** A call makes five attempts before it gives up. */
  lemma FiveAttempts(s: Store, name: string, op: TaintOp, schedule: Schedule)
    requires Retrying(s, name, op, schedule).error == Some(Conflict)
    ensures Retrying(s, name, op, schedule).attempts == 5
    ensures forall i :: 0 <= i < 5 ==> WritesTo(schedule[i].beforePatch, name)
  {
    ExhaustedOnlyByWriters(s, name, op, schedule);
  }

  // ----- the taint that is written

  /** A call that changed the node left the taints of just before with this very taint appended, or without the key. */
  lemma WritesTheTaint(s: Store, name: string, op: TaintOp, attempts: seq<Attempt>)
    requires Sound(s) && attempts != [] && Retrying(s, name, op, attempts).changed
    ensures
      var c := Retrying(s, name, op, attempts);
      var before := PerformAll(s, c.foreign);
      && name in before.nodes && name in c.store.nodes
      && c.store.nodes[name].taints == Wanted(op, before.nodes[name].taints)
      && Ours(c.store.nodes[name].taints, op.Key()) == if op.Ensure? then [op.taint] else []
  {
    var c := Retrying(s, name, op, attempts);
    Linearizable(s, name, op, attempts);
    CallReply(s, name, op, attempts);
    var k := c.attempts - 1;
    AttemptReply(AfterAttempts(s, name, op, attempts, k), name, op, attempts[k]);
    var taints := PerformAll(s, c.foreign).nodes[name].taints;
    MutateEffect(op, taints, op.Key());
    OthersShrinks(taints, op.Key());
    if op.Ensure? {
      AppendTaint(taints, op.taint, op.Key());
    } else {
      OursOfOthers(taints, op.key, op.key);
    }
  }
}
