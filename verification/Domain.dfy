/** Cluster objects the operator reads and writes, reduced to the fields it uses. */
module Domain {

  datatype Option<+T> = None | Some(value: T)

  type Labels = map<string, string>

  datatype Taint = Taint(key: string, value: string, effect: string)

  /** `lastTransition` is None for the zero timestamp: the detector did not report one. */
  datatype NodeCondition = NodeCondition(ctype: string, status: string, lastTransition: Option<int>)

  datatype Node = Node(labels: Labels, conditions: seq<NodeCondition>, taints: seq<Taint>)

  /** A policy's node selector before it is parsed: absent, well-formed or not parseable. */
  datatype SelectorSpec = AnyNode | Parsed(matches: Labels -> bool) | Malformed

  /** The policy spec after API defaulting. Durations share the unit of the timestamps. */
  datatype PolicySpec = PolicySpec(
    nodeSelector: SelectorSpec,
    conditionType: string,
    conditionStatus: string,
    taint: Option<Taint>,
    enter: int,
    exit: int,
    maxAffectedPercent: int)

  predicate CarriesKey(taints: seq<Taint>, key: string)
  {
    exists i :: 0 <= i < |taints| && taints[i].key == key
  }
}
