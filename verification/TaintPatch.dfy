/**
 Taint writes under optimistic concurrency: read the node, edit its taint list, write it back if the
 node has not changed since, and start over on a conflict, at most STEPS times. Other writers act on
 the store between any read and write; the network can refuse a call or lose its reply.
 */
module TaintPatch {
  import opened Domain
  import opened TaintList

  const STEPS := 5

  datatype Stored = Stored(taints: seq<Taint>, version: nat)

  /** Every write takes the next tick of `clock` as the resource version of the node it touches. */
  datatype Store = Store(nodes: map<string, Stored>, clock: nat)

  predicate Sound(s: Store)
  {
    forall n :: n in s.nodes ==> s.nodes[n].version <= s.clock
  }

  function Put(s: Store, name: string, taints: seq<Taint>): Store
  {
    Store(s.nodes[name := Stored(taints, s.clock + 1)], s.clock + 1)
  }

  /** Whatever other clients do: rewrite a taint list, change something else, create or delete a node. */
  datatype ForeignWrite =
    | SetTaints(name: string, taints: seq<Taint>)
    | Touch(name: string)
    | CreateNode(name: string, taints: seq<Taint>)
    | DeleteNode(name: string)

  function Perform(s: Store, w: ForeignWrite): Store
  {
    match w
    case SetTaints(n, ts) => if n in s.nodes then Put(s, n, ts) else s
    case Touch(n) => if n in s.nodes then Put(s, n, s.nodes[n].taints) else s
    case CreateNode(n, ts) => if n in s.nodes then s else Put(s, n, ts)
    case DeleteNode(n) => if n in s.nodes then Store(s.nodes - {n}, s.clock + 1) else s
  }

  function PerformAll(s: Store, ws: seq<ForeignWrite>): Store
  {
    if ws == [] then s else Perform(PerformAll(s, ws[..|ws| - 1]), ws[|ws| - 1])
  }

  /** The atomic meaning of a taint write on a node that exists. */
  datatype Effect = Effect(store: Store, changed: bool)

  function Atomically(s: Store, name: string, op: TaintOp): Effect
    requires name in s.nodes
  {
    match Mutate(op, s.nodes[name].taints)
    case None => Effect(s, false)
    case Some(u) => Effect(Put(s, name, u), true)
  }

  // ----- one call, as a function of what happens around it

  datatype ErrorKind = NotFound | Conflict | Unavailable

  /** LostReply: the server commits the write but the caller sees an error. */
  datatype Fault = NoFault | Refused | LostReply

  datatype Attempt = Attempt(
    beforeGet: seq<ForeignWrite>, getRefused: bool,
    beforePatch: seq<ForeignWrite>, patchFault: Fault)

  const CALM := Attempt([], false, [], NoFault)

  type Schedule = a: seq<Attempt> | |a| == STEPS witness [CALM, CALM, CALM, CALM, CALM]

  /** `foreign` lists the other clients' writes performed while the call was running. */
  datatype Call = Call(store: Store, changed: bool, error: Option<ErrorKind>, foreign: seq<ForeignWrite>, attempts: nat)

  function PatchReply(s: Store, name: string, taints: seq<Taint>, version: nat,
                      fault: Fault): (Store, Option<ErrorKind>)
  {
    if fault.Refused? then (s, Some(Unavailable))
    else if name !in s.nodes then (s, Some(NotFound))
    else if s.nodes[name].version != version then (s, Some(Conflict))
    else (Put(s, name, taints), if fault.LostReply? then Some(Unavailable) else None)
  }

  function TryOnce(s: Store, name: string, op: TaintOp, a: Attempt): Call
  {
    var seen := PerformAll(s, a.beforeGet);
    if a.getRefused then Call(seen, false, Some(Unavailable), a.beforeGet, 1)
    else if name !in seen.nodes then Call(seen, false, Some(NotFound), a.beforeGet, 1)
    else
      match Mutate(op, seen.nodes[name].taints)
      case None => Call(seen, false, None, a.beforeGet, 1)
      case Some(u) =>
        var (s', e) := PatchReply(PerformAll(seen, a.beforePatch), name, u, seen.nodes[name].version, a.patchFault);
        Call(s', e.None?, e, a.beforeGet + a.beforePatch, 1)
  }

  /** Conflicts are retried while attempts remain; any other result ends the call. */
  function Retrying(s: Store, name: string, op: TaintOp, attempts: seq<Attempt>): (c: Call)
    requires attempts != []
    ensures 1 <= c.attempts <= |attempts|
    decreases |attempts|
  {
    var t := TryOnce(s, name, op, attempts[0]);
    if t.error != Some(Conflict) || |attempts| == 1 then t
    else
      var rest := Retrying(t.store, name, op, attempts[1..]);
      rest.(foreign := t.foreign + rest.foreign, attempts := 1 + rest.attempts)
  }

  // ----- the algorithm

  class ApiServer {
    var store: Store

    constructor (s: Store)
      ensures store == s
    {
      store := s;
    }

    method OtherClients(ws: seq<ForeignWrite>)
      modifies this
      ensures store == PerformAll(old(store), ws)
    {
      for i := 0 to |ws|
        invariant store == PerformAll(old(store), ws[..i])
      {
        assert ws[..i + 1][..i] == ws[..i];
        store := Perform(store, ws[i]);
      }
      assert ws[..|ws|] == ws;
    }

    method Get(name: string, refused: bool) returns (node: Option<Stored>, error: Option<ErrorKind>)
      ensures error == if refused then Some(Unavailable) else if name !in store.nodes then Some(NotFound) else None
      ensures error == None ==> name in store.nodes && node == Some(store.nodes[name])
    {
      if refused {
        return None, Some(Unavailable);
      }
      if name !in store.nodes {
        return None, Some(NotFound);
      }
      return Some(store.nodes[name]), None;
    }

    method Patch(name: string, taints: seq<Taint>, version: nat, fault: Fault) returns (error: Option<ErrorKind>)
      modifies this
      ensures (store, error) == PatchReply(old(store), name, taints, version, fault)
    {
      if fault.Refused? {
        return Some(Unavailable);
      }
      if name !in store.nodes {
        return Some(NotFound);
      }
      if store.nodes[name].version != version {
        return Some(Conflict);
      }
      store := Put(store, name, taints);
      return if fault.LostReply? then Some(Unavailable) else None;
    }

    /** The body that is retried. */
    method PatchOnce(name: string, op: TaintOp, a: Attempt) returns (changed: bool, error: Option<ErrorKind>)
      modifies this
      ensures var c := TryOnce(old(store), name, op, a);
              store == c.store && changed == c.changed && error == c.error
    {
      changed := false;
      OtherClients(a.beforeGet);
      var node;
      node, error := Get(name, a.getRefused);
      if error != None {
        return;
      }
      var updated;
      match op {
        case Ensure(t) => updated := EnsureMutation(node.value.taints, t);
        case Remove(k) => updated := RemoveMutation(node.value.taints, k);
      }
      if updated.None? {
        return;
      }
      OtherClients(a.beforePatch);
      error := Patch(name, updated.value, node.value.version, a.patchFault);
      changed := error.None?;
    }

    method PatchTaintList(name: string, op: TaintOp, schedule: Schedule)
      returns (changed: bool, error: Option<ErrorKind>)
      modifies this
      ensures var c := Retrying(old(store), name, op, schedule);
              store == c.store && changed == c.changed && error == c.error
    {
      changed, error := false, None;
      for attempt := 0 to STEPS
        invariant attempt == STEPS ==>
          var c := Retrying(old(store), name, op, schedule);
          store == c.store && changed == c.changed && error == c.error
        invariant attempt < STEPS ==>
          var c, r := Retrying(old(store), name, op, schedule), Retrying(store, name, op, schedule[attempt..]);
          r.store == c.store && r.changed == c.changed && r.error == c.error
      {
        assert attempt < STEPS - 1 ==> schedule[attempt..][1..] == schedule[attempt + 1..];
        changed, error := PatchOnce(name, op, schedule[attempt]);
        if error != Some(Conflict) {
          return;
        }
      }
    }
  }

  // ----- what the call means

  lemma {:induction false} PerformAllConcat(s: Store, a: seq<ForeignWrite>, b: seq<ForeignWrite>)
    ensures PerformAll(s, a + b) == PerformAll(PerformAll(s, a), b)
  {
    if b == [] {
      assert a + b == a;
    } else {
      PerformAllConcat(s, a, b[..|b| - 1]);
      assert (a + b)[..|a + b| - 1] == a + b[..|b| - 1];
    }
  }

  lemma {:induction false} ForeignSound(s: Store, ws: seq<ForeignWrite>)
    requires Sound(s)
    ensures Sound(PerformAll(s, ws)) && s.clock <= PerformAll(s, ws).clock
  {
    if ws != [] {
      ForeignSound(s, ws[..|ws| - 1]);
    }
  }

  /** An unchanged resource version means an unchanged node, even across deletion and re-creation. */
  lemma {:induction false} SameVersionSameNode(s: Store, ws: seq<ForeignWrite>, name: string)
    requires Sound(s) && name in s.nodes
    ensures var f := PerformAll(s, ws);
            name in f.nodes && f.nodes[name].version <= s.clock ==> f.nodes[name] == s.nodes[name]
  {
    if ws != [] {
      SameVersionSameNode(s, ws[..|ws| - 1], name);
      ForeignSound(s, ws[..|ws| - 1]);
    }
  }

  /** The store after other clients' writes, then one atomic write of ours. */
  predicate CommittedLast(s: Store, name: string, op: TaintOp, foreign: seq<ForeignWrite>, changed: bool, final: Store)
  {
    var before := PerformAll(s, foreign);
    name in before.nodes && Atomically(before, name, op) == Effect(final, changed)
  }

  lemma LinearizableOnce(s: Store, name: string, op: TaintOp, a: Attempt)
    requires Sound(s)
    ensures Linearized(s, name, op, TryOnce(s, name, op, a)) && Sound(TryOnce(s, name, op, a).store)
  {
    var seen := PerformAll(s, a.beforeGet);
    ForeignSound(s, a.beforeGet);
    ForeignSound(seen, a.beforePatch);
    PerformAllConcat(s, a.beforeGet, a.beforePatch);
    if name in seen.nodes {
      SameVersionSameNode(seen, a.beforePatch, name);
    }
  }

  /**
   What a call may have done, given the other clients' writes during it:
   without error it is one atomic write on the list current when it ends, and `changed` is that
   write's own answer; a conflict or a missing node wrote nothing; any other error wrote nothing or
   exactly that one atomic write, whose reply was lost.
   */
  predicate Linearized(s: Store, name: string, op: TaintOp, c: Call)
  {
    match c.error
    case None => CommittedLast(s, name, op, c.foreign, c.changed, c.store)
    case Some(Unavailable) =>
      && !c.changed
      && (c.store == PerformAll(s, c.foreign) || CommittedLast(s, name, op, c.foreign, true, c.store))
    case Some(NotFound) => !c.changed && c.store == PerformAll(s, c.foreign) && name !in c.store.nodes
    case Some(Conflict) => !c.changed && c.store == PerformAll(s, c.foreign)
  }

  /** Linearizability of the retry loop, for every schedule of other clients' writes and faults. */
  lemma {:induction false} Linearizable(s: Store, name: string, op: TaintOp, attempts: seq<Attempt>)
    requires Sound(s) && attempts != []
    ensures Linearized(s, name, op, Retrying(s, name, op, attempts))
    ensures Sound(Retrying(s, name, op, attempts).store)
    decreases |attempts|
  {
    LinearizableOnce(s, name, op, attempts[0]);
    var t := TryOnce(s, name, op, attempts[0]);
    if t.error == Some(Conflict) && |attempts| > 1 {
      Linearizable(t.store, name, op, attempts[1..]);
      PerformAllConcat(s, t.foreign, Retrying(t.store, name, op, attempts[1..]).foreign);
    }
  }

  predicate WritesTo(ws: seq<ForeignWrite>, name: string)
  {
    exists i :: 0 <= i < |ws| && ws[i].name == name
  }

  /** Writes to other nodes leave this one as it is. */
  lemma {:induction false} Untouched(s: Store, ws: seq<ForeignWrite>, name: string)
    requires !WritesTo(ws, name)
    ensures name in PerformAll(s, ws).nodes <==> name in s.nodes
    ensures name in s.nodes ==> PerformAll(s, ws).nodes[name] == s.nodes[name]
  {
    if ws != [] {
      var front, w := ws[..|ws| - 1], ws[|ws| - 1];
      assert forall i :: 0 <= i < |front| ==> front[i] == ws[i];
      Untouched(s, front, name);
      assert w.name != name;
    }
  }

  lemma ConflictByWriter(s: Store, name: string, op: TaintOp, a: Attempt)
    requires TryOnce(s, name, op, a).error == Some(Conflict)
    ensures WritesTo(a.beforePatch, name)
  {
    if !WritesTo(a.beforePatch, name) {
      Untouched(PerformAll(s, a.beforeGet), a.beforePatch, name);
    }
  }

  /**
   A call gives up on conflicts only after its last attempt, each one beaten by another client's write
   to this very node between the read and the patch.
   */
  lemma {:induction false} ExhaustedOnlyByWriters(s: Store, name: string, op: TaintOp, attempts: seq<Attempt>)
    requires attempts != [] && Retrying(s, name, op, attempts).error == Some(Conflict)
    ensures Retrying(s, name, op, attempts).attempts == |attempts|
    ensures forall i :: 0 <= i < |attempts| ==> WritesTo(attempts[i].beforePatch, name)
    decreases |attempts|
  {
    var t := TryOnce(s, name, op, attempts[0]);
    ConflictByWriter(s, name, op, attempts[0]);
    if |attempts| > 1 {
      ExhaustedOnlyByWriters(t.store, name, op, attempts[1..]);
      assert forall i :: 0 < i < |attempts| ==> attempts[i] == attempts[1..][i - 1];
    }
  }

  /** The taint list one atomic write leaves. */
  function Updated(op: TaintOp, taints: seq<Taint>): seq<Taint>
  {
    var u := Mutate(op, taints);
    if u.Some? then u.value else taints
  }

  lemma UpdatedEffect(op: TaintOp, taints: seq<Taint>)
    ensures Others(Updated(op, taints), op.Key()) == Others(taints, op.Key())
    ensures CarriesKey(Updated(op, taints), op.Key()) <==> op.Ensure?
  {
    if Mutate(op, taints).Some? {
      MutateEffect(op, taints, op.Key());
    }
  }

  /** What one atomic write of ours does to any node. */
  lemma AtomicEffect(s: Store, name: string, op: TaintOp, n: string)
    requires name in s.nodes
    ensures
      var final := Atomically(s, name, op).store;
      && final.nodes.Keys == s.nodes.Keys
      && (n in s.nodes ==>
            final.nodes[n].taints == if n == name then Updated(op, s.nodes[name].taints) else s.nodes[n].taints)
      && (n in s.nodes && n != name ==> final.nodes[n] == s.nodes[n])
  {
  }

  /**
   No lost update: relative to the store other clients' writes alone would have left, a call touches
   only its own node there, and on that node only its own key: foreign taints keep content and order.
   */
  lemma NoLostUpdate(s: Store, name: string, op: TaintOp, attempts: seq<Attempt>, n: string)
    requires Sound(s) && attempts != []
    ensures
      var c := Retrying(s, name, op, attempts);
      var alone := PerformAll(s, c.foreign);
      && c.store.nodes.Keys == alone.nodes.Keys
      && (n in alone.nodes ==> Others(c.store.nodes[n].taints, op.Key()) == Others(alone.nodes[n].taints, op.Key()))
      && (n in alone.nodes && n != name ==> c.store.nodes[n] == alone.nodes[n])
      && (c.error == None ==>
            name in c.store.nodes && (CarriesKey(c.store.nodes[name].taints, op.Key()) <==> op.Ensure?))
  {
    Linearizable(s, name, op, attempts);
    OneEffect(s, name, op, Retrying(s, name, op, attempts), n);
  }

  lemma OneEffect(s: Store, name: string, op: TaintOp, c: Call, n: string)
    requires Linearized(s, name, op, c)
    ensures
      var alone := PerformAll(s, c.foreign);
      && c.store.nodes.Keys == alone.nodes.Keys
      && (n in alone.nodes ==> Others(c.store.nodes[n].taints, op.Key()) == Others(alone.nodes[n].taints, op.Key()))
      && (n in alone.nodes && n != name ==> c.store.nodes[n] == alone.nodes[n])
      && (c.error == None ==>
            name in c.store.nodes && (CarriesKey(c.store.nodes[name].taints, op.Key()) <==> op.Ensure?))
  {
    var alone := PerformAll(s, c.foreign);
    if c.store != alone || c.error == None {
      AtomicEffect(alone, name, op, n);
      AtomicEffect(alone, name, op, name);
      UpdatedEffect(op, alone.nodes[name].taints);
    }
  }
}
