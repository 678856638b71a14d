/** The imperative shell around the core: enacting a decision, and cleaning up after a deleted policy. */
module Shell {
  import opened Domain
  import opened Remediation
  import opened TaintList
  import opened TaintPatch
  import opened Observe

  /** What happens on the API server around the call for each node. */
  type Surroundings = string -> Schedule

  /** The outcome of a batch of calls: which nodes changed (one event each) and which calls failed. */
  datatype Batch = Batch(store: Store, changed: seq<string>, failed: seq<string>)

  /** One call per name, in order; a failure is recorded and the batch goes on. */
  function CallAll(s: Store, names: seq<string>, op: TaintOp, around: Surroundings): Batch
  {
    if names == [] then Batch(s, [], [])
    else
      var b := CallAll(s, names[..|names| - 1], op, around);
      var name := names[|names| - 1];
      var c := Retrying(b.store, name, op, around(name));
      Batch(c.store,
        if c.changed then b.changed + [name] else b.changed,
        if c.error.Some? then b.failed + [name] else b.failed)
  }

  /** The calls of a batch, one per name. */
  function Calls(s: Store, names: seq<string>, op: TaintOp, around: Surroundings): (r: seq<Call>)
    ensures |r| == |names|
  {
    if names == [] then []
    else
      var front, name := names[..|names| - 1], names[|names| - 1];
      Calls(s, front, op, around) + [Retrying(CallAll(s, front, op, around).store, name, op, around(name))]
  }

  /** What the last call of a batch adds to it. */
  lemma LastCall(s: Store, names: seq<string>, op: TaintOp, around: Surroundings, n: string)
    requires names != []
    ensures
      var front, name := names[..|names| - 1], names[|names| - 1];
      var b := CallAll(s, front, op, around);
      var c := Retrying(b.store, name, op, around(name));
      && CallAll(s, names, op, around).store == c.store
      && (n in names <==> n in front || n == name)
      && (CallAll(s, names, op, around).failed == [] <==> b.failed == [] && c.error.None?)
      && (n in CallAll(s, names, op, around).failed <==> n in b.failed || (n == name && c.error.Some?))
      && (n in CallAll(s, names, op, around).changed <==> n in b.changed || (n == name && c.changed))
  {
    assert names == names[..|names| - 1] + [names[|names| - 1]];
  }

  method RunBatch(server: ApiServer, names: seq<string>, op: TaintOp, around: Surroundings)
    returns (changed: seq<string>, failed: seq<string>)
    modifies server
    ensures Batch(server.store, changed, failed) == CallAll(old(server.store), names, op, around)
  {
    changed, failed := [], [];
    for i := 0 to |names|
      invariant Batch(server.store, changed, failed) == CallAll(old(server.store), names[..i], op, around)
    {
      assert names[..i + 1][..i] == names[..i];
      var ch, error := server.PatchTaintList(names[i], op, around(names[i]));
      RepliesAreClean(CallAll(old(server.store), names[..i], op, around).store, names[i], op, around(names[i]));
      if error.Some? {
        failed := failed + [names[i]];
        continue;
      }
      if !ch {
        continue;
      }
      changed := changed + [names[i]];
    }
    assert names[..|names|] == names;
  }

  lemma {:induction false} RepliesAreClean(s: Store, name: string, op: TaintOp, attempts: seq<Attempt>)
    requires attempts != []
    ensures var c := Retrying(s, name, op, attempts); c.error.Some? ==> !c.changed
    decreases |attempts|
  {
    var t := TryOnce(s, name, op, attempts[0]);
    if t.error == Some(Conflict) && |attempts| > 1 {
      RepliesAreClean(t.store, name, op, attempts[1..]);
    }
  }

  /** Applies first, then removes; the pass fails when any call failed. */
  method Act(server: ApiServer, d: Decision, taint: Taint, around: Surroundings)
    returns (applied: seq<string>, removed: seq<string>, failed: seq<string>)
    modifies server
    ensures
      var a := CallAll(old(server.store), d.applyTaint, Ensure(taint), around);
      var r := CallAll(a.store, d.removeTaint, Remove(taint.key), around);
      server.store == r.store && applied == a.changed && removed == r.changed && failed == a.failed + r.failed
  {
    var f1, f2;
    applied, f1 := RunBatch(server, d.applyTaint, Ensure(taint), around);
    removed, f2 := RunBatch(server, d.removeTaint, Remove(taint.key), around);
    failed := f1 + f2;
  }

  predicate SomeFailed(names: seq<string>, calls: seq<Call>, x: string)
    requires |names| == |calls|
  {
    exists i :: 0 <= i < |names| && names[i] == x && calls[i].error.Some?
  }

  predicate SomeChanged(names: seq<string>, calls: seq<Call>, x: string)
    requires |names| == |calls|
  {
    exists i :: 0 <= i < |names| && names[i] == x && calls[i].changed
  }

  lemma SplitLast(names: seq<string>, calls: seq<Call>, x: string)
    requires |names| == |calls| && names != []
    ensures
      var last := |names| - 1;
      && (SomeFailed(names, calls, x) <==>
            SomeFailed(names[..last], calls[..last], x) || (names[last] == x && calls[last].error.Some?))
      && (SomeChanged(names, calls, x) <==>
            SomeChanged(names[..last], calls[..last], x) || (names[last] == x && calls[last].changed))
  {
    var last := |names| - 1;
    assert forall i :: 0 <= i < last ==> names[..last][i] == names[i] && calls[..last][i] == calls[i];
  }

  lemma CallsLast(s: Store, names: seq<string>, op: TaintOp, around: Surroundings)
    requires names != []
    ensures
      var front, name := names[..|names| - 1], names[|names| - 1];
      && Calls(s, names, op, around)[..|names| - 1] == Calls(s, front, op, around)
      && Calls(s, names, op, around)[|names| - 1] ==
         Retrying(CallAll(s, front, op, around).store, name, op, around(name))
  {
  }

  /** Every name is attempted whatever happened before it, and is reported failed (or changed) iff its own call was. */
  lemma {:induction false} EveryNodeAttempted(s: Store, names: seq<string>, op: TaintOp,
                                              around: Surroundings, x: string)
    ensures x in CallAll(s, names, op, around).failed <==> SomeFailed(names, Calls(s, names, op, around), x)
    ensures x in CallAll(s, names, op, around).changed <==> SomeChanged(names, Calls(s, names, op, around), x)
  {
    if names != [] {
      EveryNodeAttempted(s, names[..|names| - 1], op, around, x);
      LastCall(s, names, op, around, x);
      CallsLast(s, names, op, around);
      SplitLast(names, Calls(s, names, op, around), x);
    }
  }

  // ----- cleanup after deletion

  predicate Carries(s: Store, key: string, n: string)
  {
    n in s.nodes && CarriesKey(s.nodes[n].taints, key)
  }

  function CarryingNames(listing: seq<string>, s: Store, key: string): seq<string>
  {
    if listing == [] then []
    else Extend(CarryingNames(listing[..|listing| - 1], s, key), Carries(s, key, listing[|listing| - 1]),
                listing[|listing| - 1])
  }

  lemma {:induction false} CarryingNamesMember(listing: seq<string>, s: Store, key: string, n: string)
    ensures n in CarryingNames(listing, s, key) <==> n in listing && Carries(s, key, n)
  {
    if listing != [] {
      CarryingNamesMember(listing[..|listing| - 1], s, key, n);
      assert listing == listing[..|listing| - 1] + [listing[|listing| - 1]];
    }
  }

  /**
   Remove the key from every node that carries it in one uncached listing. The selector plays no part.
   `listing` is the order in which the server lists its nodes.
   */
  method CleanupTaints(server: ApiServer, taint: Option<Taint>, listing: seq<string>, listRefused: bool,
                       around: Surroundings)
    returns (error: bool)
    requires forall n :: n in server.store.nodes <==> n in listing
    modifies server
    ensures taint.None? ==> !error && server.store == old(server.store)
    ensures taint.Some? && listRefused ==> error && server.store == old(server.store)
    ensures taint.Some? && !listRefused ==>
      var key := taint.value.key;
      var b := CallAll(old(server.store), CarryingNames(listing, old(server.store), key), Remove(key), around);
      server.store == b.store && error == (b.failed != [])
  {
    if taint.None? {
      return false;
    }
    if listRefused {
      return true;
    }
    var key := taint.value.key;
    var snapshot := server.store;
    error := false;
    for i := 0 to |listing|
      invariant var b := CallAll(snapshot, CarryingNames(listing[..i], snapshot, key), Remove(key), around);
                server.store == b.store && error == (b.failed != [])
    {
      assert listing[..i + 1][..i] == listing[..i];
      ghost var before := CarryingNames(listing[..i], snapshot, key);
      var found := HasTaintKey(snapshot.nodes[listing[i]].taints, key);
      if !found {
        continue;
      }
      assert (before + [listing[i]])[..|before|] == before;
      var _, e := server.PatchTaintList(listing[i], Remove(key), around(listing[i]));
      if e.Some? {
        error := true;
      }
    }
    assert listing[..|listing|] == listing;
  }

  /** Other clients never give the key to a node that lacks it. */
  predicate AddNoKey(s: Store, ws: seq<ForeignWrite>, key: string)
  {
    ws == [] || (
      && AddNoKey(s, ws[..|ws| - 1], key)
      && forall n :: n in PerformAll(s, ws).nodes && Carries(PerformAll(s, ws), key, n)
           ==> Carries(PerformAll(s, ws[..|ws| - 1]), key, n))
  }

  predicate QuietBatch(s: Store, names: seq<string>, op: TaintOp, around: Surroundings)
  {
    names == [] || (
      && QuietBatch(s, names[..|names| - 1], op, around)
      && AddNoKey(CallAll(s, names[..|names| - 1], op, around).store,
                  Calls(s, names, op, around)[|names| - 1].foreign, op.Key()))
  }

  lemma {:induction false} QuietWriters(s: Store, ws: seq<ForeignWrite>, key: string, n: string)
    requires AddNoKey(s, ws, key) && Carries(PerformAll(s, ws), key, n)
    ensures Carries(s, key, n)
  {
    if ws != [] {
      QuietWriters(s, ws[..|ws| - 1], key, n);
    }
  }

  /** A remove call never adds a carrier, and one that reports no error leaves its node without the key. */
  lemma RemoveCall(s: Store, name: string, key: string, attempts: seq<Attempt>, n: string)
    requires Sound(s) && attempts != []
    requires AddNoKey(s, Retrying(s, name, Remove(key), attempts).foreign, key)
    ensures
      var c := Retrying(s, name, Remove(key), attempts);
      && Sound(c.store)
      && (Carries(c.store, key, n) ==> Carries(s, key, n) && (n == name ==> c.error.Some?))
  {
    var c := Retrying(s, name, Remove(key), attempts);
    Linearizable(s, name, Remove(key), attempts);
    var alone := PerformAll(s, c.foreign);
    if name in alone.nodes && Mutate(Remove(key), alone.nodes[name].taints).Some? {
      MutateEffect(Remove(key), alone.nodes[name].taints, key);
    }
    if Carries(c.store, key, n) {
      QuietWriters(s, c.foreign, key, n);
    }
  }

  lemma QuietLast(s: Store, names: seq<string>, op: TaintOp, around: Surroundings)
    requires names != [] && QuietBatch(s, names, op, around)
    ensures
      var front, name := names[..|names| - 1], names[|names| - 1];
      var before := CallAll(s, front, op, around).store;
      QuietBatch(s, front, op, around) && AddNoKey(before, Retrying(before, name, op, around(name)).foreign, op.Key())
  {
  }

  lemma {:induction false} RemoveBatch(s: Store, names: seq<string>, key: string, around: Surroundings, n: string)
    requires Sound(s) && QuietBatch(s, names, Remove(key), around)
    ensures
      var b := CallAll(s, names, Remove(key), around);
      && Sound(b.store)
      && (Carries(b.store, key, n) ==> Carries(s, key, n) && (n in names ==> b.failed != []))
  {
    if names != [] {
      var front, name := names[..|names| - 1], names[|names| - 1];
      QuietLast(s, names, Remove(key), around);
      LastCall(s, names, Remove(key), around, n);
      RemoveBatch(s, front, key, around, n);
      RemoveCall(CallAll(s, front, Remove(key), around).store, name, key, around(name), n);
    }
  }

  /** A cleanup that reports no error leaves no node with the key, though nodes come and go meanwhile. */
  lemma CleanupIsComplete(s: Store, listing: seq<string>, key: string, around: Surroundings)
    requires Sound(s) && forall n :: n in s.nodes <==> n in listing
    requires QuietBatch(s, CarryingNames(listing, s, key), Remove(key), around)
    requires CallAll(s, CarryingNames(listing, s, key), Remove(key), around).failed == []
    ensures forall n :: !Carries(CallAll(s, CarryingNames(listing, s, key), Remove(key), around).store, key, n)
  {
    var names := CarryingNames(listing, s, key);
    forall n ensures !Carries(CallAll(s, names, Remove(key), around).store, key, n) {
      RemoveBatch(s, names, key, around, n);
      CarryingNamesMember(listing, s, key, n);
    }
  }
}
