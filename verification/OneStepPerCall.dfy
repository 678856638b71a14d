/** Why the fleet may treat a taint write as one atomic step: the retry loop refines it. */
module OneStepPerCall {
  import opened Domain
  import opened TaintList
  import opened TaintPatch
  import Fleet

  /** The fleet's nodes and the versioned store show the same taints. */
  predicate Agree(nodes: map<string, Node>, s: Store)
  {
    nodes.Keys == s.nodes.Keys && forall n :: n in nodes ==> nodes[n].taints == s.nodes[n].taints
  }

  /** The nodes after one write step of the fleet with the given reply. */
  function Stepped(nodes: map<string, Node>, name: string, op: TaintOp, reply: Fleet.Reply): map<string, Node>
  {
    if reply == Fleet.Refused then nodes else Fleet.EditTaints(nodes, name, op)
  }

  lemma AtomicAgrees(nodes: map<string, Node>, s: Store, name: string, op: TaintOp)
    requires Agree(nodes, s) && name in s.nodes
    ensures Agree(Fleet.EditTaints(nodes, name, op), Atomically(s, name, op).store)
  {
  }

  /**
   Whatever happens around a call, its net effect, taken after the other clients' writes during it,
   is one write step of the fleet: acknowledged when the call succeeds, and lost or refused when it fails.
   */
  lemma CallRefinesStep(nodes: map<string, Node>, s: Store, name: string, op: TaintOp, attempts: seq<Attempt>)
    returns (reply: Fleet.Reply)
    requires Sound(s) && attempts != []
    requires Agree(nodes, PerformAll(s, Retrying(s, name, op, attempts).foreign))
    ensures
      var c := Retrying(s, name, op, attempts);
      && Agree(Stepped(nodes, name, op, reply), c.store)
      && (reply == Fleet.Acked <==> c.error == None)
  {
    Linearizable(s, name, op, attempts);
    var c := Retrying(s, name, op, attempts);
    var alone := PerformAll(s, c.foreign);
    if c.error == None {
      reply := Fleet.Acked;
      AtomicAgrees(nodes, alone, name, op);
    } else if c.store == alone {
      reply := Fleet.Refused;
    } else {
      reply := Fleet.Lost;
      AtomicAgrees(nodes, alone, name, op);
    }
  }
}
