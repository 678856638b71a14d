/**
 The operator at work on a whole fleet: any number of policies, each reconciled by its own serialised
 passes, interleaved step by step with users, node churn, other writers, crashes and lost replies.

 The operator reads policies from a cache that shows any version, old or new; its updates of a policy
 object carry the version it read and fail if that is not the stored one. A taint write is
 one atomic step, which is what the retry loop of module TaintPatch amounts to.
 */
module Fleet {
  import opened Domain
  import opened Remediation
  import opened TaintList
  import opened Observe
  import opened Admission

  datatype Object = Absent | Present(spec: PolicySpec, deleting: bool, finalizer: bool)

  /** The step at which a policy's pass stands, with what it carries in memory. */
  datatype Pass =
    | Idle
    | AddingFinalizer(read: nat)
    | Planning(spec: PolicySpec)
    | Acting(spec: PolicySpec, applies: seq<string>, removes: seq<string>)
    | Listing(read: nat)
    | Cleaning(read: nat, todo: seq<string>, failed: bool)
    | Releasing(read: nat)

  /** One policy name: its superseded versions, the stored one, the cache position, and its pass. */
  datatype Track = Track(history: seq<Object>, latest: Object, cache: nat, pass: Pass)

  datatype State = State(policies: map<string, Track>, nodes: map<string, Node>)

  /** Refused: nothing happened. Lost: it happened but the operator sees an error. */
  datatype Reply = Acked | Lost | Refused

  datatype Action =
    // users, through admission
    | CreatePolicy(policy: string, spec: PolicySpec)
    | UpdatePolicy(policy: string, spec: PolicySpec)
    | DeletePolicy(policy: string)
    | TouchPolicy(policy: string)
    // the policy cache shows another version: it catches up, or a restarted operator lists an older one
    | MoveCache(policy: string, to: nat)
    // nodes and other clients
    | CreateNode(name: string, node: Node)
    | DeleteNode(name: string)
    | WriteNode(name: string, node: Node)
    // the operator
    | Start(policy: string)
    | StoreFinalizer(policy: string, reply: Reply)
    | Plan(policy: string, view: Option<map<string, Node>>, order: seq<string>, now: int)
    | WriteTaint(policy: string, reply: Reply)
    | ListForCleanup(policy: string, order: seq<string>)
    | CleanTaint(policy: string, reply: Reply)
    | ReleaseFinalizer(policy: string, reply: Reply)
    | Crash(policy: string)

  const NO_TRACK := Track([], Absent, 0, Idle)

  function TrackOf(s: State, policy: string): Track
  {
    if policy in s.policies then s.policies[policy] else NO_TRACK
  }

  function VersionAt(t: Track, i: nat): Object
  {
    if i < |t.history| then t.history[i] else t.latest
  }

  function Push(t: Track, o: Object): Track
  {
    t.(history := t.history + [t.latest], latest := o)
  }

  function TaintOf(spec: PolicySpec): Taint
  {
    if spec.taint.None? then Taint("", "", "") else spec.taint.value
  }

  /** The uniqueness check against every other stored policy. */
  predicate Admits(s: State, policy: string, spec: PolicySpec)
  {
    forall q :: q in s.policies && s.policies[q].latest.Present? ==>
      !Collides(NamedPolicy(policy, spec), NamedPolicy(q, s.policies[q].latest.spec))
  }

  function Listed(view: map<string, Node>, order: seq<string>): seq<NamedNode>
  {
    if order == [] then []
    else
      var rest := Listed(view, order[1..]);
      if order[0] in view then [NamedNode(order[0], view[order[0]])] + rest else rest
  }

  predicate Carries(nodes: map<string, Node>, n: string, key: string)
  {
    n in nodes && CarriesKey(nodes[n].taints, key)
  }

  /** The nodes of a listing that carry the key, in order. */
  function CarriersIn(nodes: map<string, Node>, order: seq<string>, key: string): seq<string>
  {
    if order == [] then []
    else
      var rest := CarriersIn(nodes, order[1..], key);
      if Carries(nodes, order[0], key) then [order[0]] + rest else rest
  }

  function EditTaints(nodes: map<string, Node>, n: string, op: TaintOp): map<string, Node>
  {
    if n !in nodes then nodes
    else
      match Mutate(op, nodes[n].taints)
      case None => nodes
      case Some(u) => nodes[n := nodes[n].(taints := u)]
  }

  // ----- one step of one policy's pass

  function Started(t: Track): Pass
  {
    match VersionAt(t, t.cache)
    case Absent => Idle
    case Present(spec, deleting, finalizer) =>
      if !deleting then (if finalizer then Planning(spec) else AddingFinalizer(t.cache))
      else (if finalizer then Listing(t.cache) else Idle)
  }

  /** A compare-and-swap on the policy object. */
  predicate Committed(t: Track, read: nat, reply: Reply)
  {
    reply != Refused && read == |t.history|
  }

  function FinalizerStored(t: Track, reply: Reply): Track
    requires t.pass.AddingFinalizer?
  {
    if Committed(t, t.pass.read, reply) && t.latest.Present? then
      Push(t, t.latest.(finalizer := true)).(pass := if reply.Acked? then Planning(t.latest.spec) else Idle)
    else t.(pass := Idle)
  }

  function Planned(nodes: map<string, Node>, t: Track, view: Option<map<string, Node>>,
                   order: seq<string>, now: int): Pass
    requires t.pass.Planning?
  {
    match ProjectPolicy(t.pass.spec)
    case None => Idle
    case Some(p) =>
      var d := DecisionFor(p, Facts(Listed(if view.None? then nodes else view.value, order), p), now);
      Acting(t.pass.spec, d.applyTaint, d.removeTaint)
  }

  function NextWrite(pass: Pass): Option<(string, TaintOp)>
    requires pass.Acting?
  {
    if pass.applies != [] then Some((pass.applies[0], Ensure(TaintOf(pass.spec))))
    else if pass.removes != [] then Some((pass.removes[0], Remove(TaintOf(pass.spec).key)))
    else None
  }

  function Written(pass: Pass): Pass
    requires pass.Acting?
  {
    if pass.applies != [] then pass.(applies := pass.applies[1..])
    else if pass.removes != [] then pass.(removes := pass.removes[1..])
    else Idle
  }

  /** The key that a deletion pass removes: the one of the version it read. */
  function CleanupKey(t: Track, read: nat): Option<string>
  {
    var o := VersionAt(t, read);
    if o.Present? && o.spec.taint.Some? then Some(o.spec.taint.value.key) else None
  }

  function ListedForCleanup(nodes: map<string, Node>, t: Track, order: seq<string>): Pass
    requires t.pass.Listing?
  {
    match CleanupKey(t, t.pass.read)
    case None => Releasing(t.pass.read)
    case Some(key) => Cleaning(t.pass.read, CarriersIn(nodes, order, key), false)
  }

  function Cleaned(nodes: map<string, Node>, pass: Pass, reply: Reply): Pass
    requires pass.Cleaning?
  {
    if pass.todo == [] then (if pass.failed then Idle else Releasing(pass.read))
    else pass.(todo := pass.todo[1..], failed := pass.failed || pass.todo[0] !in nodes || reply != Acked)
  }

  function Released(t: Track, reply: Reply): Track
    requires t.pass.Releasing?
  {
    (if Committed(t, t.pass.read, reply) then Push(t, Absent) else t).(pass := Idle)
  }

  // ----- the transition function; an action that is not enabled changes nothing

  function SetTrack(s: State, policy: string, t: Track): State
  {
    s.(policies := s.policies[policy := t])
  }

  function SetPass(s: State, policy: string, pass: Pass): State
  {
    SetTrack(s, policy, TrackOf(s, policy).(pass := pass))
  }

  function UserStep(s: State, a: Action): State
  {
    match a
    case CreatePolicy(p, spec) =>
      if TrackOf(s, p).latest.Absent? && spec.taint.Some? && Admits(s, p, spec)
      then SetTrack(s, p, Push(TrackOf(s, p), Present(spec, false, false))) else s
    case UpdatePolicy(p, spec) =>
      var o := TrackOf(s, p).latest;
      if o.Present? && spec.taint == o.spec.taint && Admits(s, p, spec)
      then SetTrack(s, p, Push(TrackOf(s, p), o.(spec := spec))) else s
    case DeletePolicy(p) =>
      var o := TrackOf(s, p).latest;
      if o.Present?
      then SetTrack(s, p, Push(TrackOf(s, p), if o.finalizer then o.(deleting := true) else Absent)) else s
    case TouchPolicy(p) =>
      if TrackOf(s, p).latest.Present? then SetTrack(s, p, Push(TrackOf(s, p), TrackOf(s, p).latest)) else s
    case MoveCache(p, to) =>
      var t := TrackOf(s, p);
      if to <= |t.history| then SetTrack(s, p, t.(cache := to)) else s
    case _ => s
  }

  function NodeStep(s: State, a: Action): State
  {
    match a
    case CreateNode(n, node) => if n in s.nodes then s else s.(nodes := s.nodes[n := node])
    case DeleteNode(n) => s.(nodes := s.nodes - {n})
    case WriteNode(n, node) => if n in s.nodes then s.(nodes := s.nodes[n := node]) else s
    case _ => s
  }

  function OperatorStep(s: State, a: Action): State
  {
    match a
    case Start(p) =>
      var t := TrackOf(s, p);
      if t.pass.Idle? then SetPass(s, p, Started(t)) else s
    case StoreFinalizer(p, reply) =>
      var t := TrackOf(s, p);
      if t.pass.AddingFinalizer? then SetTrack(s, p, FinalizerStored(t, reply)) else s
    case Plan(p, view, order, now) =>
      var t := TrackOf(s, p);
      if t.pass.Planning? then SetPass(s, p, Planned(s.nodes, t, view, order, now)) else s
    case WriteTaint(p, reply) =>
      var t := TrackOf(s, p);
      if t.pass.Acting? then
        var w := NextWrite(t.pass);
        var nodes := if w.Some? && reply != Refused then EditTaints(s.nodes, w.value.0, w.value.1) else s.nodes;
        SetPass(s.(nodes := nodes), p, Written(t.pass))
      else s
    case ListForCleanup(p, order) =>
      var t := TrackOf(s, p);
      if t.pass.Listing? && forall n :: n in s.nodes ==> n in order
      then SetPass(s, p, ListedForCleanup(s.nodes, t, order)) else s
    case CleanTaint(p, reply) =>
      var t := TrackOf(s, p);
      if t.pass.Cleaning? then
        var key := CleanupKey(t, t.pass.read);
        var nodes := if t.pass.todo != [] && key.Some? && reply != Refused
                     then EditTaints(s.nodes, t.pass.todo[0], Remove(key.value)) else s.nodes;
        SetPass(s.(nodes := nodes), p, Cleaned(s.nodes, t.pass, reply))
      else s
    case ReleaseFinalizer(p, reply) =>
      var t := TrackOf(s, p);
      if t.pass.Releasing? then SetTrack(s, p, Released(t, reply)) else s
    case Crash(p) => SetPass(s, p, Idle)
    case _ => s
  }

  predicate IsNodeAction(a: Action)
  {
    a.CreateNode? || a.DeleteNode? || a.WriteNode?
  }

  predicate IsUserAction(a: Action)
  {
    a.CreatePolicy? || a.UpdatePolicy? || a.DeletePolicy? || a.TouchPolicy? || a.MoveCache?
  }

  function Step(s: State, a: Action): State
  {
    if IsNodeAction(a) then NodeStep(s, a)
    else if IsUserAction(a) then UserStep(s, a)
    else OperatorStep(s, a)
  }

  function Run(s: State, actions: seq<Action>): State
  {
    if actions == [] then s else Step(Run(s, actions[..|actions| - 1]), actions[|actions| - 1])
  }

  lemma RunOneMore(s: State, actions: seq<Action>, a: Action)
    ensures Run(s, actions + [a]) == Step(Run(s, actions), a)
  {
    assert (actions + [a])[..|actions|] == actions;
  }

  lemma RunOne(s: State, a: Action)
    ensures Run(s, [a]) == Step(s, a)
  {
    assert [a][..0] == [];
    assert Run(s, []) == s;
  }

  lemma {:induction false} RunConcat(s: State, a: seq<Action>, b: seq<Action>)
    ensures Run(s, a + b) == Run(Run(s, a), b)
  {
    if b == [] {
      assert a + b == a;
    } else {
      var front, last := b[..|b| - 1], b[|b| - 1];
      RunConcat(s, a, front);
      RunOneMore(s, a + front, last);
      RunOneMore(Run(s, a), front, last);
      assert front + [last] == b && a + front + [last] == a + b;
    }
  }
}
