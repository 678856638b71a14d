/** Which node updates wake which policies, and why the dropped ones cannot matter to a decision. */
module Wakeup {
  import opened Domain
  import opened Remediation
  import opened DecisionLaws
  import opened Observe
  import opened Admission

  // ----- what changed between two versions of a node

  /** The part of a condition that can wake a policy. */
  datatype ConditionState = ConditionState(status: string, hasTimestamp: bool)

  const ZERO_STATE := ConditionState(STATUS_UNREPORTED, false)

  function StateOfCondition(c: NodeCondition): ConditionState
  {
    ConditionState(c.status, c.lastTransition.Some?)
  }

  /** Indexed by type; the last condition of a type wins and an absent type reads as the zero state. */
  function StateOf(conditions: seq<NodeCondition>, ctype: string): ConditionState
  {
    if conditions == [] then ZERO_STATE
    else
      var last := conditions[|conditions| - 1];
      if last.ctype == ctype then StateOfCondition(last)
      else StateOf(conditions[..|conditions| - 1], ctype)
  }

  function Lookup(m: map<string, ConditionState>, ctype: string): ConditionState
  {
    if ctype in m then m[ctype] else ZERO_STATE
  }

  method ConditionStateByType(conditions: seq<NodeCondition>) returns (m: map<string, ConditionState>)
    ensures forall t :: Lookup(m, t) == StateOf(conditions, t)
  {
    m := map[];
    for i := 0 to |conditions|
      invariant forall t :: Lookup(m, t) == StateOf(conditions[..i], t)
    {
      var c := conditions[i];
      assert conditions[..i + 1][..i] == conditions[..i];
      m := m[c.ctype := StateOfCondition(c)];
    }
    assert conditions[..|conditions|] == conditions;
  }

  /** The condition types whose status or timestamp presence differs. */
  method ChangedConditionTypes(old_: seq<NodeCondition>, new_: seq<NodeCondition>) returns (changed: set<string>)
    ensures forall t :: t in changed <==> StateOf(old_, t) != StateOf(new_, t)
  {
    var oldState := ConditionStateByType(old_);
    var newState := ConditionStateByType(new_);
    changed := {};
    var todo := oldState.Keys;
    while todo != {}
      invariant todo <= oldState.Keys
      invariant forall t :: t in changed <==> t in oldState.Keys - todo && Lookup(newState, t) != oldState[t]
      decreases todo
    {
      var t :| t in todo;
      if Lookup(newState, t) != oldState[t] {
        changed := changed + {t};
      }
      todo := todo - {t};
    }
    todo := newState.Keys;
    while todo != {}
      invariant todo <= newState.Keys
      invariant forall t :: t in changed <==>
        (t in oldState && Lookup(newState, t) != oldState[t]) ||
        (t in newState.Keys - todo && Lookup(oldState, t) != newState[t])
      decreases todo
    {
      var t :| t in todo;
      if Lookup(oldState, t) != newState[t] {
        changed := changed + {t};
      }
      todo := todo - {t};
    }
  }

  method TaintKeySet(taints: seq<Taint>) returns (keys: set<string>)
    ensures forall k :: k in keys <==> CarriesKey(taints, k)
  {
    keys := {};
    for i := 0 to |taints|
      invariant forall k :: k in keys <==> CarriesKey(taints[..i], k)
    {
      forall k ensures CarriesKey(taints[..i + 1], k) <==> CarriesKey(taints[..i], k) || taints[i].key == k {
        assert taints[..i + 1] == taints[..i] + [taints[i]];
        assert (taints[..i] + [taints[i]])[i] == taints[i];
        assert forall j :: 0 <= j < i ==> taints[..i + 1][j] == taints[..i][j];
      }
      keys := keys + {taints[i].key};
    }
    assert taints[..|taints|] == taints;
  }

  /** The taint keys present on one side only. */
  method ChangedTaintKeys(old_: seq<Taint>, new_: seq<Taint>) returns (changed: set<string>)
    ensures forall k :: k in changed <==> CarriesKey(old_, k) != CarriesKey(new_, k)
  {
    var oldKeys := TaintKeySet(old_);
    var newKeys := TaintKeySet(new_);
    changed := {};
    var todo := oldKeys;
    while todo != {}
      invariant todo <= oldKeys
      invariant forall k :: k in changed <==> k in oldKeys - todo && k !in newKeys
      decreases todo
    {
      var k :| k in todo;
      if k !in newKeys {
        changed := changed + {k};
      }
      todo := todo - {k};
    }
    todo := newKeys;
    while todo != {}
      invariant todo <= newKeys
      invariant forall k :: k in changed <==> (k in oldKeys && k !in newKeys) || (k in newKeys - todo && k !in oldKeys)
      decreases todo
    {
      var k :| k in todo;
      if k !in oldKeys {
        changed := changed + {k};
      }
      todo := todo - {k};
    }
  }

  // ----- the enqueue decision

  predicate Selects(spec: PolicySpec, labels: Labels)
  {
    match spec.nodeSelector
    case Malformed => false
    case AnyNode => true
    case Parsed(f) => f(labels)
  }

  /** Whether a node update enqueues the policy. */
  predicate Wakes(spec: PolicySpec, old_: Node, new_: Node)
  {
    if spec.nodeSelector.Malformed? then false
    else if old_.labels != new_.labels then Selects(spec, new_.labels) || Selects(spec, old_.labels)
    else if !Selects(spec, new_.labels) then false
    else if StateOf(old_.conditions, spec.conditionType) != StateOf(new_.conditions, spec.conditionType) then true
    else
      && spec.taint.Some?
      && CarriesKey(old_.taints, spec.taint.value.key) != CarriesKey(new_.taints, spec.taint.value.key)
  }

  /** The policy selects the node under these labels; an unparseable selector selects nothing. */
  predicate Covers(spec: PolicySpec, labels: Labels)
  {
    spec.nodeSelector.AnyNode? || (spec.nodeSelector.Parsed? && spec.nodeSelector.matches(labels))
  }

  /**
   Exactly which updates wake a policy: it selects the node before or after, and the labels, its condition
   type's last state or its own key's presence changed.
   */
  lemma WakesExactly(spec: PolicySpec, old_: Node, new_: Node)
    ensures Wakes(spec, old_, new_) <==>
              && (Covers(spec, old_.labels) || Covers(spec, new_.labels))
              && (|| old_.labels != new_.labels
                  || StateOf(old_.conditions, spec.conditionType) != StateOf(new_.conditions, spec.conditionType)
                  || (spec.taint.Some? && (CarriesKey(old_.taints, spec.taint.value.key)
                                             != CarriesKey(new_.taints, spec.taint.value.key))))
  {
  }

  predicate NamesDiffer(policies: seq<NamedPolicy>)
  {
    forall i, j :: 0 <= i < j < |policies| ==> policies[i].name != policies[j].name
  }

  /** The update handler: the names of the policies to enqueue, in listing order; none if the listing fails. */
  method EnqueuePolicies(policies: seq<NamedPolicy>, listRefused: bool, old_: Node, new_: Node)
    returns (queue: seq<string>)
    ensures listRefused ==> queue == []
    ensures !listRefused ==> forall x :: x in queue <==>
      exists i :: 0 <= i < |policies| && policies[i].name == x && Wakes(policies[i].spec, old_, new_)
    ensures NamesDiffer(policies) ==> forall i, j :: 0 <= i < j < |queue| ==> queue[i] != queue[j]
  {
    var changedConditions := ChangedConditionTypes(old_.conditions, new_.conditions);
    var changedTaints := ChangedTaintKeys(old_.taints, new_.taints);
    var labelsChanged := old_.labels != new_.labels;
    queue := [];
    if listRefused {
      return;
    }
    for i := 0 to |policies|
      invariant forall x :: x in queue <==>
        exists j :: 0 <= j < i && policies[j].name == x && Wakes(policies[j].spec, old_, new_)
      invariant NamesDiffer(policies) ==> forall j, k :: 0 <= j < k < |queue| ==> queue[j] != queue[k]
    {
      var spec := policies[i].spec;
      var wanted;
      if spec.nodeSelector.Malformed? {
        wanted := false;
      } else if labelsChanged {
        wanted := Selects(spec, new_.labels) || Selects(spec, old_.labels);
      } else if !Selects(spec, new_.labels) {
        wanted := false;
      } else if spec.conditionType in changedConditions {
        wanted := true;
      } else {
        wanted := spec.taint.Some? && spec.taint.value.key in changedTaints;
      }
      assert NamesDiffer(policies) ==> policies[i].name !in queue;
      if wanted {
        queue := queue + [policies[i].name];
      }
    }
  }

  predicate ConditionChanged(old_: Node, new_: Node, ctype: string)
  {
    StateOf(old_.conditions, ctype) != StateOf(new_.conditions, ctype)
  }

  predicate KeyChanged(old_: Node, new_: Node, key: string)
  {
    CarriesKey(old_.taints, key) != CarriesKey(new_.taints, key)
  }

  /** Some condition, some taint key or the labels changed. */
  ghost predicate Noticeable(old_: Node, new_: Node)
  {
    || old_.labels != new_.labels
    || (exists t :: ConditionChanged(old_, new_, t))
    || (exists k :: KeyChanged(old_, new_, k))
  }

  /** The watch in front of the handler: any of the three predicates lets an update through. */
  method WatchPasses(old_: Node, new_: Node) returns (passes: bool)
    ensures passes <==> Noticeable(old_, new_)
  {
    var types := ChangedConditionTypes(old_.conditions, new_.conditions);
    var keys := ChangedTaintKeys(old_.taints, new_.taints);
    passes := types != {} || keys != {} || old_.labels != new_.labels;
    assert forall t :: t in types <==> ConditionChanged(old_, new_, t);
    assert forall k :: k in keys <==> KeyChanged(old_, new_, k);
    assert types != {} ==> exists t :: t in types;
    assert keys != {} ==> exists k :: k in keys;
  }

  /** What the watch drops: updates that leave labels, last condition states and taint keys as they are. */
  lemma DroppedExactly(old_: Node, new_: Node)
    ensures !Noticeable(old_, new_) <==>
              && old_.labels == new_.labels
              && (forall t :: StateOf(old_.conditions, t) == StateOf(new_.conditions, t))
              && (forall k :: CarriesKey(old_.taints, k) <==> CarriesKey(new_.taints, k))
  {
    if !Noticeable(old_, new_) {
      forall t ensures StateOf(old_.conditions, t) == StateOf(new_.conditions, t) {
        assert !ConditionChanged(old_, new_, t);
      }
      forall k ensures CarriesKey(old_.taints, k) <==> CarriesKey(new_.taints, k) {
        assert !KeyChanged(old_, new_, k);
      }
    } else if old_.labels == new_.labels {
      if t :| ConditionChanged(old_, new_, t) {
        assert StateOf(old_.conditions, t) != StateOf(new_.conditions, t);
      } else {
        var k :| KeyChanged(old_, new_, k);
        assert CarriesKey(old_.taints, k) != CarriesKey(new_.taints, k);
      }
    }
  }

  /** The watch never drops an update that the handler would have turned into work. */
  lemma WatchPassesEveryWake(spec: PolicySpec, old_: Node, new_: Node)
    requires Wakes(spec, old_, new_)
    ensures Noticeable(old_, new_)
  {
    if old_.labels == new_.labels && !ConditionChanged(old_, new_, spec.conditionType) {
      assert KeyChanged(old_, new_, spec.taint.value.key);
    }
  }

  // ----- agreement with the decision

  predicate IsFirst(conditions: seq<NodeCondition>, ctype: string, i: nat)
  {
    i < |conditions| && conditions[i].ctype == ctype && forall k :: 0 <= k < i ==> conditions[k].ctype != ctype
  }

  predicate IsLast(conditions: seq<NodeCondition>, ctype: string, j: nat)
  {
    && j < |conditions| && conditions[j].ctype == ctype
    && forall k :: j < k < |conditions| ==> conditions[k].ctype != ctype
  }

  /** The first and the last condition of the type, which the core and the watch look at, are in one state. */
  predicate FirstAndLastAgree(conditions: seq<NodeCondition>, ctype: string)
  {
    forall i: nat, j: nat | i < |conditions| && j < |conditions| ::
      IsFirst(conditions, ctype, i) && IsLast(conditions, ctype, j) ==>
        StateOfCondition(conditions[i]) == StateOfCondition(conditions[j])
  }

  function StateOfFact(c: ConditionFact): ConditionState
  {
    ConditionState(c.status, c.lastTransition.Some?)
  }

  lemma {:induction false} AbsentType(conditions: seq<NodeCondition>, ctype: string)
    requires forall i :: 0 <= i < |conditions| ==> conditions[i].ctype != ctype
    ensures StateOf(conditions, ctype) == ZERO_STATE
    ensures ConditionOf(conditions, ctype) == ConditionFact(STATUS_UNREPORTED, None)
  {
    if conditions != [] {
      AbsentType(conditions[1..], ctype);
      AbsentType(conditions[..|conditions| - 1], ctype);
    }
  }

  lemma {:induction false} FirstCondition(conditions: seq<NodeCondition>, ctype: string, i: nat)
    requires IsFirst(conditions, ctype, i)
    ensures ConditionOf(conditions, ctype) == ConditionFact(conditions[i].status, conditions[i].lastTransition)
  {
    if i > 0 {
      FirstCondition(conditions[1..], ctype, i - 1);
    }
  }

  lemma {:induction false} LastCondition(conditions: seq<NodeCondition>, ctype: string, j: nat)
    requires IsLast(conditions, ctype, j)
    ensures StateOf(conditions, ctype) == StateOfCondition(conditions[j])
  {
    if j < |conditions| - 1 {
      LastCondition(conditions[..|conditions| - 1], ctype, j);
    }
  }

  lemma {:induction false} SomeFirst(conditions: seq<NodeCondition>, ctype: string, at: nat) returns (i: nat)
    requires at < |conditions| && conditions[at].ctype == ctype
    ensures i <= at && IsFirst(conditions, ctype, i)
    decreases at
  {
    if k: nat :| k < at && conditions[k].ctype == ctype {
      i := SomeFirst(conditions, ctype, k);
    } else {
      i := at;
    }
  }

  lemma {:induction false} SomeLast(conditions: seq<NodeCondition>, ctype: string, at: nat) returns (j: nat)
    requires at < |conditions| && conditions[at].ctype == ctype
    ensures at <= j && IsLast(conditions, ctype, j)
    decreases |conditions| - at
  {
    if k: nat :| at < k < |conditions| && conditions[k].ctype == ctype {
      j := SomeLast(conditions, ctype, k);
    } else {
      j := at;
    }
  }

  /** What the watch compares is what the core observes exactly if the first and the last condition agree. */
  lemma WatchSeesTheFact(conditions: seq<NodeCondition>, ctype: string)
    ensures StateOf(conditions, ctype) == StateOfFact(ConditionOf(conditions, ctype)) <==>
            FirstAndLastAgree(conditions, ctype)
  {
    if at: nat :| at < |conditions| && conditions[at].ctype == ctype {
      var i := SomeFirst(conditions, ctype, at);
      var j := SomeLast(conditions, ctype, at);
      FirstCondition(conditions, ctype, i);
      LastCondition(conditions, ctype, j);
    } else {
      AbsentType(conditions, ctype);
    }
  }

  /** Two facts about one node that differ at most in the labels of an unselected node and in an exact timestamp. */
  predicate Indistinct(p: Policy, a: NodeFact, b: NodeFact)
  {
    && a.name == b.name
    && (InScope(p, a) <==> InScope(p, b))
    && (InScope(p, a) ==>
          a.hasTaint == b.hasTaint && a.condition.status == b.condition.status && (Dated(a) <==> Dated(b)))
  }

  /** If the policy selects the node, all the node's conditions of the watched type say the same, first and last. */
  predicate Readable(spec: PolicySpec, node: Node)
  {
    Selects(spec, node.labels) ==> FirstAndLastAgree(node.conditions, spec.conditionType)
  }

  /** A policy that names its taint, as admission demands; its own key is then what the handler compares. */
  lemma DroppedUpdate(spec: PolicySpec, name: string, old_: Node, new_: Node)
    requires !spec.nodeSelector.Malformed? && spec.taint.Some?
    requires Readable(spec, old_) && Readable(spec, new_)
    requires !Wakes(spec, old_, new_)
    ensures var p := ProjectPolicy(spec).value; Indistinct(p, Fact(name, old_, p), Fact(name, new_, p))
  {
    WatchSeesTheFact(old_.conditions, spec.conditionType);
    WatchSeesTheFact(new_.conditions, spec.conditionType);
  }

  predicate AllIndistinct(p: Policy, a: seq<NodeFact>, b: seq<NodeFact>)
  {
    |a| == |b| && forall i :: 0 <= i < |a| ==> Indistinct(p, a[i], b[i])
  }

  lemma SameStatus(p: Policy, a: seq<NodeFact>, b: seq<NodeFact>, now: int, t: int)
    requires AllIndistinct(p, a, b)
    ensures StatusFor(p, a, now) == StatusFor(p, b, t)
    ensures DecisionFor(p, a, now).heldMissingTimestamp == DecisionFor(p, b, t).heldMissingTimestamp
  {
    var m0 := Moment(p, false, 0);
    NamesAlike(m0, a, m0, b, Matched);
    NamesAlike(m0, a, m0, b, Determinate);
    var m, o := MomentOf(p, a, now), MomentOf(p, b, t);
    NamesAlike(m, a, o, b, Selected);
    NamesAlike(m, a, o, b, Matched);
    NamesAlike(m, a, o, b, Pending);
    NamesAlike(m, a, o, b, Unknown);
    NamesAlike(m, a, o, b, Remediated);
    NamesAlike(m, a, o, b, Held);
  }

  // ----- runs of dropped updates

  datatype Update = Update(index: nat, node: Node)

  function Applied(nodes: seq<NamedNode>, u: Update): seq<NamedNode>
    requires u.index < |nodes|
  {
    nodes[u.index := nodes[u.index].(node := u.node)]
  }

  predicate Dropped(spec: PolicySpec, nodes: seq<NamedNode>, us: seq<Update>)
    decreases |us|
  {
    us == [] || (
      && us[0].index < |nodes|
      && Readable(spec, nodes[us[0].index].node) && Readable(spec, us[0].node)
      && !Wakes(spec, nodes[us[0].index].node, us[0].node)
      && Dropped(spec, Applied(nodes, us[0]), us[1..]))
  }

  function AppliedAll(spec: PolicySpec, nodes: seq<NamedNode>, us: seq<Update>): (r: seq<NamedNode>)
    requires Dropped(spec, nodes, us)
    ensures |r| == |nodes|
    decreases |us|
  {
    if us == [] then nodes else AppliedAll(spec, Applied(nodes, us[0]), us[1..])
  }

  lemma {:induction false} DroppedUpdates(spec: PolicySpec, nodes: seq<NamedNode>, us: seq<Update>)
    requires !spec.nodeSelector.Malformed? && spec.taint.Some? && Dropped(spec, nodes, us)
    ensures var p := ProjectPolicy(spec).value; AllIndistinct(p, Facts(nodes, p), Facts(AppliedAll(spec, nodes, us), p))
    decreases |us|
  {
    if us != [] {
      var i := us[0].index;
      DroppedUpdate(spec, nodes[i].name, nodes[i].node, us[0].node);
      DroppedUpdates(spec, Applied(nodes, us[0]), us[1..]);
    }
  }

  /**
   Wake-up completeness: after any number of updates that do not concern the policy, the status and the held
   list are at every time what the last pass published.
   */
  lemma WakeupComplete(spec: PolicySpec, nodes: seq<NamedNode>, us: seq<Update>, now: int, t: int)
    requires !spec.nodeSelector.Malformed? && spec.taint.Some? && Dropped(spec, nodes, us)
    ensures
      var p := ProjectPolicy(spec).value;
      var d := DecisionFor(p, Facts(nodes, p), now);
      var e := DecisionFor(p, Facts(AppliedAll(spec, nodes, us), p), t);
      e.status == d.status && e.heldMissingTimestamp == d.heldMissingTimestamp
  {
    var p := ProjectPolicy(spec).value;
    DroppedUpdates(spec, nodes, us);
    SameStatus(p, Facts(nodes, p), Facts(AppliedAll(spec, nodes, us), p), now, t);
  }

  /** A created or deleted node wakes the policies that select it; the others report the same without or with it. */
  lemma UnselectedNodeUnreported(p: Policy, a: seq<NodeFact>, n: NodeFact, b: seq<NodeFact>, now: int)
    requires !InScope(p, n)
    ensures StatusFor(p, a + [n] + b, now) == StatusFor(p, a + b, now)
    ensures DecisionFor(p, a + [n] + b, now).heldMissingTimestamp == DecisionFor(p, a + b, now).heldMissingTimestamp
  {
    forall m: Moment, g: Group | m.policy == p && g != ScopedOut
      ensures Names(m, g, a + [n] + b) == Names(m, g, a + b)
    {
      NamesSkip(m, g, a, n, b);
    }
  }

  lemma NamesSkip(m: Moment, g: Group, a: seq<NodeFact>, n: NodeFact, b: seq<NodeFact>)
    requires !Belongs(m, g, n)
    ensures Names(m, g, a + [n] + b) == Names(m, g, a + b)
  {
    NamesAppend(m, g, a, n);
    NamesConcat(m, g, a + [n], b);
    NamesConcat(m, g, a, b);
  }

  // ----- the limits of the claim

  /** The removals Decide owes to nodes that are tainted but not selected. */
  function ScopedOutRemovals(p: Policy, nodes: seq<NodeFact>, now: int): seq<string>
  {
    Names(MomentOf(p, nodes, now), ScopedOut, nodes)
  }

  /** Lists that differ in one node name the same nodes exactly if that node belongs to both or to neither. */
  lemma OneNodeDiffers(m: Moment, o: Moment, g: Group, a: seq<NodeFact>, b: seq<NodeFact>, i: nat)
    requires |a| == |b| && i < |a| && a[i].name == b[i].name
    requires forall k :: 0 <= k < |a| && k != i ==>
               a[k].name == b[k].name && (Belongs(m, g, a[k]) <==> Belongs(o, g, b[k]))
    ensures Names(m, g, a) == Names(o, g, b) <==> (Belongs(m, g, a[i]) <==> Belongs(o, g, b[i]))
  {
    NamesAround(m, g, a, i);
    NamesAround(o, g, b, i);
    NamesAlike(m, a[..i], o, b[..i], g);
    NamesAlike(m, a[i + 1..], o, b[i + 1..], g);
  }

  /** One node's part in a list of names. */
  lemma NamesAround(m: Moment, g: Group, nodes: seq<NodeFact>, i: nat)
    requires i < |nodes|
    ensures Names(m, g, nodes) ==
            Extend(Names(m, g, nodes[..i]), Belongs(m, g, nodes[i]), nodes[i].name) + Names(m, g, nodes[i + 1..])
  {
    assert nodes == nodes[..i] + [nodes[i]] + nodes[i + 1..];
    NamesAppend(m, g, nodes[..i], nodes[i]);
    NamesConcat(m, g, nodes[..i] + [nodes[i]], nodes[i + 1..]);
  }

  /**
   What an update that woke nobody does to the scoped-out removals: they stay the same exactly if the
   policy selects the node or the presence of its key did not change. An unselected node never wakes it.
   */
  lemma UnselectedKeyUnnoticed(spec: PolicySpec, nodes: seq<NamedNode>, u: Update, now: int, t: int)
    requires !spec.nodeSelector.Malformed? && u.index < |nodes| && !Wakes(spec, nodes[u.index].node, u.node)
    ensures
      var p := ProjectPolicy(spec).value;
      var same := ScopedOutRemovals(p, Facts(Applied(nodes, u), p), t) == ScopedOutRemovals(p, Facts(nodes, p), now);
      same <==> Selects(spec, u.node.labels) || !KeyChanged(nodes[u.index].node, u.node, p.taint.key)
  {
    var p := ProjectPolicy(spec).value;
    var a, b := Facts(nodes, p), Facts(Applied(nodes, u), p);
    var m, o := MomentOf(p, a, now), MomentOf(p, b, t);
    OneNodeDiffers(m, o, ScopedOut, a, b, u.index);
    ScopeKept(spec, nodes[u.index].name, nodes[u.index].node, u.node);
  }

  lemma ScopeKept(spec: PolicySpec, name: string, old_: Node, new_: Node)
    requires !spec.nodeSelector.Malformed? && !Wakes(spec, old_, new_)
    ensures
      var p := ProjectPolicy(spec).value;
      && (InScope(p, Fact(name, new_, p)) <==> Selects(spec, new_.labels))
      && (InScope(p, Fact(name, old_, p)) <==> Selects(spec, new_.labels))
  {
  }

  /**
   A new state of the first condition of the watched type, the one the core reads, wakes the policy
   exactly if the node is selected and no later condition of that type hides the change from the watch.
   */
  lemma FirstConditionNoticed(spec: PolicySpec, name: string, node: Node, i: nat, c: NodeCondition)
    requires !spec.nodeSelector.Malformed? && IsFirst(node.conditions, spec.conditionType, i)
    requires c.ctype == spec.conditionType
    ensures
      var p := ProjectPolicy(spec).value;
      var changed := node.(conditions := node.conditions[i := c]);
      && Fact(name, changed, p).condition == ConditionFact(c.status, c.lastTransition)
      && (Wakes(spec, node, changed) <==>
            && Selects(spec, node.labels)
            && StateOfCondition(c) != StateOfCondition(node.conditions[i])
            && IsLast(node.conditions, spec.conditionType, i))
  {
    var conditions := node.conditions[i := c];
    FirstCondition(conditions, spec.conditionType, i);
    var j := SomeLast(node.conditions, spec.conditionType, i);
    LastCondition(node.conditions, spec.conditionType, j);
    LastCondition(conditions, spec.conditionType, j);
  }

  // ----- dropped timestamp bumps

  /** No timestamp of a selected node moved back. */
  predicate OnlyForward(p: Policy, a: seq<NodeFact>, b: seq<NodeFact>)
    requires |a| == |b|
  {
    forall i :: 0 <= i < |a| && InScope(p, b[i]) && Dated(a[i]) && Dated(b[i]) ==>
      a[i].condition.lastTransition.value <= b[i].condition.lastTransition.value
  }

  /** The removals Decide owes to the condition of selected nodes. */
  function ExitRemovals(p: Policy, nodes: seq<NodeFact>, now: int): seq<string>
  {
    Names(MomentOf(p, nodes, now), Removing, nodes)
  }

  /** At `t` no action is due on a selected node that the pass at `now` did not choose. */
  predicate ActsOnSelectedWithin(p: Policy, a: seq<NodeFact>, now: int, b: seq<NodeFact>, t: int)
  {
    && (forall x :: x in DecisionFor(p, b, t).applyTaint ==> x in DecisionFor(p, a, now).applyTaint)
    && (forall x :: x in ExitRemovals(p, b, t) ==> x in ExitRemovals(p, a, now))
  }

  /** At `t` no action at all is due that the pass at `now` did not choose. */
  predicate ActsWithin(p: Policy, a: seq<NodeFact>, now: int, b: seq<NodeFact>, t: int)
  {
    && (forall x :: x in DecisionFor(p, b, t).applyTaint ==> x in DecisionFor(p, a, now).applyTaint)
    && (forall x :: x in DecisionFor(p, b, t).removeTaint ==> x in DecisionFor(p, a, now).removeTaint)
  }

  /** No unselected node has the key that did not have it unselected before. */
  predicate NoneGained(p: Policy, a: seq<NodeFact>, b: seq<NodeFact>)
    requires |a| == |b|
  {
    forall i :: 0 <= i < |a| && !InScope(p, b[i]) && b[i].hasTaint ==> !InScope(p, a[i]) && a[i].hasTaint
  }

  /** No node that was waiting became due before the outstanding requeue. */
  predicate NoneDueEarlier(p: Policy, a: seq<NodeFact>, now: int, b: seq<NodeFact>)
    requires AllIndistinct(p, a, b)
  {
    forall i :: 0 <= i < |a| && Belongs(MomentOf(p, a, now), Waiting, a[i]) ==>
      now + DecisionFor(p, a, now).requeueAfter <= Due(p, b[i])
  }

  /** Time before the requeue that the pass at `now` asked for; all later time if it asked for none. */
  predicate BeforeRequeue(p: Policy, a: seq<NodeFact>, now: int, t: int)
  {
    var r := DecisionFor(p, a, now).requeueAfter;
    now <= t && (r == 0 || t < now + r)
  }

  lemma NothingEarlier(p: Policy, a: seq<NodeFact>, b: seq<NodeFact>, now: int, t: int)
    requires AllIndistinct(p, a, b) && NoneDueEarlier(p, a, now, b) && BeforeRequeue(p, a, now, t)
    ensures ActsOnSelectedWithin(p, a, now, b, t)
    ensures NoneGained(p, a, b) ==> ActsWithin(p, a, now, b, t)
  {
    var m, o := MomentOf(p, a, now), MomentOf(p, b, t);
    SameStatus(p, a, b, now, t);
    LeastWaitIsLeast(m, a);
    forall g: Group, x | (g == Applying || g == Removing) && x in Names(o, g, b) ensures x in Names(m, g, a) {
      var i := NodeOf(o, g, b, x);
      assert a[i] in a && Indistinct(p, a[i], b[i]);
      StillNotDue(m, o, g, a[i], b[i]);
      NamesMember(m, g, a, x);
    }
    if NoneGained(p, a, b) {
      ScopedOutWithin(p, a, b, m, o);
    }
  }

  lemma ScopedOutWithin(p: Policy, a: seq<NodeFact>, b: seq<NodeFact>, m: Moment, o: Moment)
    requires AllIndistinct(p, a, b) && NoneGained(p, a, b) && m.policy == p && o.policy == p
    ensures forall x :: x in Names(o, ScopedOut, b) ==> x in Names(m, ScopedOut, a)
  {
    forall x | x in Names(o, ScopedOut, b) ensures x in Names(m, ScopedOut, a) {
      var i := NodeOf(o, ScopedOut, b, x);
      assert Indistinct(p, a[i], b[i]);
      NamesMember(m, ScopedOut, a, x);
    }
  }

  /** An unselected node that gained the key is due for a removal that the pass at `now` did not choose. */
  lemma GainedEarlier(p: Policy, a: seq<NodeFact>, b: seq<NodeFact>, now: int, i: nat)
    requires DistinctNames(a) && AllIndistinct(p, a, b) && i < |a|
    requires !InScope(p, b[i]) && b[i].hasTaint && !(!InScope(p, a[i]) && a[i].hasTaint)
    ensures BeforeRequeue(p, a, now, now) && !ActsWithin(p, a, now, b, now)
  {
    var m, o := MomentOf(p, a, now), MomentOf(p, b, now);
    var x := a[i].name;
    assert Indistinct(p, a[i], b[i]);
    NamesMember(o, ScopedOut, b, x);
    NamesMemberAt(m, ScopedOut, a, i);
    NamesMemberAt(m, Removing, a, i);
    assert x in DecisionFor(p, b, now).removeTaint && x !in DecisionFor(p, a, now).removeTaint;
  }

  /** What is due now was not waiting then, if waiting nodes are not due yet. */
  lemma StillNotDue(m: Moment, o: Moment, g: Group, then_: NodeFact, now_: NodeFact)
    requires Indistinct(m.policy, then_, now_) && o.policy == m.policy && o.tripped == m.tripped
    requires (g == Applying || g == Removing) && Belongs(o, g, now_)
    requires Belongs(m, Waiting, then_) ==> o.now < Due(m.policy, now_)
    ensures Belongs(m, g, then_)
  {
  }

  lemma SomethingEarlier(p: Policy, a: seq<NodeFact>, b: seq<NodeFact>, now: int, i: nat) returns (t: int)
    requires DistinctNames(a) && AllIndistinct(p, a, b) && i < |a|
    requires Belongs(MomentOf(p, a, now), Waiting, a[i]) && Due(p, b[i]) < now + DecisionFor(p, a, now).requeueAfter
    ensures BeforeRequeue(p, a, now, t) && !ActsOnSelectedWithin(p, a, now, b, t) && !ActsWithin(p, a, now, b, t)
  {
    t := if Due(p, b[i]) < now then now else Due(p, b[i]);
    var m, o := MomentOf(p, a, now), MomentOf(p, b, t);
    SameStatus(p, a, b, now, t);
    var x := a[i].name;
    assert Indistinct(p, a[i], b[i]);
    NowDue(m, o, a[i], b[i]);
    if Matches(p, a[i]) {
      NamesMember(o, Applying, b, x);
      NamesMemberAt(m, Applying, a, i);
      assert x in DecisionFor(p, b, t).applyTaint && x !in DecisionFor(p, a, now).applyTaint;
    } else {
      NamesMember(o, Removing, b, x);
      NamesMemberAt(m, Removing, a, i);
      NamesMemberAt(m, ScopedOut, a, i);
      assert x in ExitRemovals(p, b, t) && x !in ExitRemovals(p, a, now);
      assert x in DecisionFor(p, b, t).removeTaint && x !in DecisionFor(p, a, now).removeTaint;
    }
  }

  /** A node that was waiting and is due now is due for an action nobody chose then. */
  lemma NowDue(m: Moment, o: Moment, then_: NodeFact, now_: NodeFact)
    requires Indistinct(m.policy, then_, now_) && o.policy == m.policy && o.tripped == m.tripped
    requires Belongs(m, Waiting, then_) && Due(m.policy, now_) <= o.now
    ensures Matches(m.policy, then_) ==> Belongs(o, Applying, now_) && !Belongs(m, Applying, then_)
    ensures !Matches(m.policy, then_) ==>
              Belongs(o, Removing, now_) && !Belongs(m, Removing, then_) && !Belongs(m, ScopedOut, then_)
  {
  }

  /**
   Exactly when updates that do not concern the policy stay harmless until the requeue. On the selected
   nodes: no waiting node may have become due before it, which takes a timestamp moved back far enough.
   Everywhere: besides, no unselected node may have gained the key.
   */
  lemma HarmlessExactly(p: Policy, a: seq<NodeFact>, b: seq<NodeFact>, now: int)
    requires DistinctNames(a) && AllIndistinct(p, a, b)
    ensures NoneDueEarlier(p, a, now, b) <==>
            forall t :: BeforeRequeue(p, a, now, t) ==> ActsOnSelectedWithin(p, a, now, b, t)
    ensures NoneDueEarlier(p, a, now, b) && NoneGained(p, a, b) <==>
            forall t :: BeforeRequeue(p, a, now, t) ==> ActsWithin(p, a, now, b, t)
  {
    if NoneDueEarlier(p, a, now, b) {
      forall t | BeforeRequeue(p, a, now, t)
        ensures ActsOnSelectedWithin(p, a, now, b, t) && (NoneGained(p, a, b) ==> ActsWithin(p, a, now, b, t))
      {
        NothingEarlier(p, a, b, now, t);
      }
      if i: nat :| i < |a| && !InScope(p, b[i]) && b[i].hasTaint && !(!InScope(p, a[i]) && a[i].hasTaint) {
        GainedEarlier(p, a, b, now, i);
      }
    } else {
      var i :| 0 <= i < |a| && Belongs(MomentOf(p, a, now), Waiting, a[i])
        && Due(p, b[i]) < now + DecisionFor(p, a, now).requeueAfter;
      var t := SomethingEarlier(p, a, b, now, i);
    }
  }

  /**
   Dropped timestamp bumps are never late: while only updates that do not concern the policy happen and no
   selected node's timestamp moves back, nothing becomes due on a selected node before the outstanding
   requeue, ever if there is none, and nothing at all if no unselected node gained the key.
   */
  lemma DroppedBumpsNeverLate(spec: PolicySpec, nodes: seq<NamedNode>, us: seq<Update>, now: int, t: int)
    requires !spec.nodeSelector.Malformed? && spec.taint.Some? && Dropped(spec, nodes, us)
    requires var p := ProjectPolicy(spec).value; OnlyForward(p, Facts(nodes, p), Facts(AppliedAll(spec, nodes, us), p))
    requires var p := ProjectPolicy(spec).value; BeforeRequeue(p, Facts(nodes, p), now, t)
    ensures
      var p := ProjectPolicy(spec).value;
      var a, b := Facts(nodes, p), Facts(AppliedAll(spec, nodes, us), p);
      ActsOnSelectedWithin(p, a, now, b, t) && (NoneGained(p, a, b) ==> ActsWithin(p, a, now, b, t))
  {
    var p := ProjectPolicy(spec).value;
    var a, b := Facts(nodes, p), Facts(AppliedAll(spec, nodes, us), p);
    DroppedUpdates(spec, nodes, us);
    ForwardIsNotEarlier(p, a, b, now);
    NothingEarlier(p, a, b, now, t);
  }

  lemma ForwardIsNotEarlier(p: Policy, a: seq<NodeFact>, b: seq<NodeFact>, now: int)
    requires AllIndistinct(p, a, b) && OnlyForward(p, a, b)
    ensures NoneDueEarlier(p, a, now, b)
  {
    LeastWaitIsLeast(MomentOf(p, a, now), a);
    forall i | 0 <= i < |a| && Belongs(MomentOf(p, a, now), Waiting, a[i])
      ensures now + DecisionFor(p, a, now).requeueAfter <= Due(p, b[i])
    {
      assert a[i] in a && Indistinct(p, a[i], b[i]);
    }
  }
}
