/** From cluster objects to the facts the decision core consumes. */
module Observe {
  import opened Domain
  import opened Remediation

  /** The nil selector and a well-formed one project to a policy; an unparseable one to None. */
  function ProjectPolicy(spec: PolicySpec): (r: Option<Policy>)
    ensures r.None? <==> spec.nodeSelector.Malformed?
    ensures r.Some? && spec.taint.Some? ==> r.value.taint == spec.taint.value
  {
    if spec.nodeSelector.Malformed? then None
    else Some(Policy(
      if spec.nodeSelector.AnyNode? then None else Some(spec.nodeSelector.matches),
      spec.conditionType,
      spec.conditionStatus,
      if spec.taint.None? then Taint("", "", "") else spec.taint.value,
      spec.enter,
      spec.exit,
      spec.maxAffectedPercent))
  }

  /** The first condition of the type; the zero fact when the node does not report it. */
  function ConditionOf(conditions: seq<NodeCondition>, ctype: string): ConditionFact
  {
    if conditions == [] then ConditionFact(STATUS_UNREPORTED, None)
    else if conditions[0].ctype == ctype then ConditionFact(conditions[0].status, conditions[0].lastTransition)
    else ConditionOf(conditions[1..], ctype)
  }

  function Fact(name: string, node: Node, p: Policy): NodeFact
  {
    NodeFact(name, node.labels, ConditionOf(node.conditions, p.conditionType), CarriesKey(node.taints, p.taint.key))
  }

  datatype NamedNode = NamedNode(name: string, node: Node)

  function Facts(nodes: seq<NamedNode>, p: Policy): (r: seq<NodeFact>)
    ensures |r| == |nodes|
    ensures forall i :: 0 <= i < |nodes| ==> r[i] == Fact(nodes[i].name, nodes[i].node, p)
  {
    seq(|nodes|, i requires 0 <= i < |nodes| => Fact(nodes[i].name, nodes[i].node, p))
  }

  method HasTaintKey(taints: seq<Taint>, key: string) returns (found: bool)
    ensures found <==> CarriesKey(taints, key)
    ensures found <==> exists i :: 0 <= i < |taints| && taints[i].key == key
  {
    for i := 0 to |taints|
      invariant forall j :: 0 <= j < i ==> taints[j].key != key
    {
      if taints[i].key == key {
        return true;
      }
    }
    return false;
  }

  method WatchedCondition(conditions: seq<NodeCondition>, ctype: string) returns (c: ConditionFact)
    ensures c == ConditionOf(conditions, ctype)
  {
    c := ConditionFact(STATUS_UNREPORTED, None);
    for i := 0 to |conditions|
      invariant c == ConditionFact(STATUS_UNREPORTED, None)
      invariant ConditionOf(conditions, ctype) == ConditionOf(conditions[i..], ctype)
    {
      assert conditions[i..][1..] == conditions[i + 1..];
      if conditions[i].ctype == ctype {
        c := ConditionFact(conditions[i].status, conditions[i].lastTransition);
        break;
      }
    }
  }

  method ObserveNodes(nodes: seq<NamedNode>, p: Policy) returns (facts: seq<NodeFact>)
    ensures facts == Facts(nodes, p)
  {
    facts := [];
    for i := 0 to |nodes|
      invariant facts == Facts(nodes, p)[..i]
    {
      var condition := WatchedCondition(nodes[i].node.conditions, p.conditionType);
      var hasTaint := HasTaintKey(nodes[i].node.taints, p.taint.key);
      facts := facts + [NodeFact(nodes[i].name, nodes[i].node.labels, condition, hasTaint)];
    }
  }
}
