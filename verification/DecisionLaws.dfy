/** What every decision satisfies: conservation, disjointness, blast radius, guard monotonicity, order independence. */
module DecisionLaws {
  import opened Domain
  import opened Remediation

  predicate DistinctNames(nodes: seq<NodeFact>)
  {
    forall i, j :: 0 <= i < j < |nodes| ==> nodes[i].name != nodes[j].name
  }

  // ----- groups and their names

  lemma {:induction false} NamesMember(m: Moment, g: Group, nodes: seq<NodeFact>, x: string)
    ensures x in Names(m, g, nodes) <==> exists i :: 0 <= i < |nodes| && nodes[i].name == x && Belongs(m, g, nodes[i])
  {
    if nodes != [] {
      var last := |nodes| - 1;
      NamesMember(m, g, nodes[..last], x);
      assert forall i :: 0 <= i < last ==> nodes[..last][i] == nodes[i];
    }
  }

  /** With distinct names, a listed name determines the node it was listed for. */
  lemma NamesMemberAt(m: Moment, g: Group, nodes: seq<NodeFact>, i: nat)
    requires DistinctNames(nodes) && i < |nodes|
    ensures nodes[i].name in Names(m, g, nodes) <==> Belongs(m, g, nodes[i])
  {
    NamesMember(m, g, nodes, nodes[i].name);
  }

  lemma ExtendConcat(a: seq<string>, b: seq<string>, keep: bool, x: string)
    ensures Extend(a + b, keep, x) == a + Extend(b, keep, x)
  {
    assert a + b + [x] == a + (b + [x]);
  }

  lemma {:induction false} NamesConcat(m: Moment, g: Group, a: seq<NodeFact>, b: seq<NodeFact>)
    ensures Names(m, g, a + b) == Names(m, g, a) + Names(m, g, b)
  {
    if b == [] {
      assert a + b == a;
    } else {
      var front, n := b[..|b| - 1], b[|b| - 1];
      NamesConcat(m, g, a, front);
      NamesAppend(m, g, front, n);
      NamesAppend(m, g, a + front, n);
      assert b == front + [n] && a + b == a + front + [n];
      ExtendConcat(Names(m, g, a), Names(m, g, front), Belongs(m, g, n), n.name);
    }
  }

  /** `whole` is split by `left` and `right` on every one of these nodes. */
  predicate Splits(m: Moment, whole: Group, left: Group, right: Group, nodes: seq<NodeFact>)
  {
    forall i :: 0 <= i < |nodes| ==>
      && (Belongs(m, whole, nodes[i]) <==> Belongs(m, left, nodes[i]) || Belongs(m, right, nodes[i]))
      && !(Belongs(m, left, nodes[i]) && Belongs(m, right, nodes[i]))
  }

  lemma {:induction false} SplitNames(m: Moment, whole: Group, left: Group, right: Group, nodes: seq<NodeFact>)
    requires Splits(m, whole, left, right, nodes)
    ensures multiset(Names(m, whole, nodes)) == multiset(Names(m, left, nodes)) + multiset(Names(m, right, nodes))
    ensures |Names(m, whole, nodes)| == |Names(m, left, nodes)| + |Names(m, right, nodes)|
  {
    if nodes != [] {
      var front, n := nodes[..|nodes| - 1], nodes[|nodes| - 1];
      SplitNames(m, whole, left, right, front);
      SplitExtend(Names(m, whole, front), Names(m, left, front), Names(m, right, front),
        Belongs(m, left, n), Belongs(m, right, n), n.name);
    }
  }

  lemma SplitExtend(w: seq<string>, l: seq<string>, r: seq<string>, left: bool, right: bool, x: string)
    requires multiset(w) == multiset(l) + multiset(r) && |w| == |l| + |r|
    requires !(left && right)
    ensures multiset(Extend(w, left || right, x)) == multiset(Extend(l, left, x)) + multiset(Extend(r, right, x))
    ensures |Extend(w, left || right, x)| == |Extend(l, left, x)| + |Extend(r, right, x)|
  {
  }

  lemma {:induction false} SubgroupCount(m: Moment, whole: Group, part: Group, nodes: seq<NodeFact>)
    requires forall i :: 0 <= i < |nodes| && Belongs(m, part, nodes[i]) ==> Belongs(m, whole, nodes[i])
    ensures |Names(m, part, nodes)| <= |Names(m, whole, nodes)|
  {
    if nodes != [] {
      SubgroupCount(m, whole, part, nodes[..|nodes| - 1]);
    }
  }

  /** The counts the guard was evaluated on are the sizes of the published groups. */
  lemma CountsAreSizes(p: Policy, nodes: seq<NodeFact>, now: int)
    ensures var m := MomentOf(p, nodes, now);
            MatchedCount(p, nodes) == |Names(m, Matched, nodes)|
            && DeterminateCount(p, nodes) == |Names(m, Determinate, nodes)|
  {
    var m := MomentOf(p, nodes, now);
    NamesAgree(m, Moment(p, false, 0), Matched, nodes);
    NamesAgree(m, Moment(p, false, 0), Determinate, nodes);
  }

  // ----- conservation

  lemma SelectedSplits(m: Moment, nodes: seq<NodeFact>)
    ensures multiset(Names(m, Selected, nodes)) ==
            multiset(Names(m, Matched, nodes)) + multiset(Names(m, Unknown, nodes)) + multiset(Names(m, Cleared, nodes))
    ensures |Names(m, Determinate, nodes)| == |Names(m, Selected, nodes)| - |Names(m, Unknown, nodes)|
  {
    SplitNames(m, Selected, Determinate, Unknown, nodes);
    SplitNames(m, Determinate, Matched, Cleared, nodes);
  }

  lemma MatchedSplits(m: Moment, nodes: seq<NodeFact>)
    ensures multiset(Names(m, Matched, nodes)) ==
            multiset(Names(m, Pending, nodes)) + multiset(Names(m, HeldMatched, nodes))
            + multiset(Names(m, RemediatedMatched, nodes))
    ensures |Names(m, Matched, nodes)| ==
            |Names(m, Pending, nodes)| + |Names(m, HeldMatched, nodes)| + |Names(m, RemediatedMatched, nodes)|
  {
    UntaintedSplits(m, nodes);
    SplitNames(m, Matched, UntaintedMatched, RemediatedMatched, nodes);
  }

  lemma UntaintedSplits(m: Moment, nodes: seq<NodeFact>)
    ensures multiset(Names(m, UntaintedMatched, nodes)) ==
            multiset(Names(m, Pending, nodes)) + multiset(Names(m, HeldMatched, nodes))
    ensures |Names(m, UntaintedMatched, nodes)| == |Names(m, Pending, nodes)| + |Names(m, HeldMatched, nodes)|
  {
    SplitNames(m, UntaintedMatched, Pending, HeldMatched, nodes);
  }

  /** With distinct names, a group is what two lists of names have in common. */
  lemma Intersection(m: Moment, g: Group, h: Group, both: Group, nodes: seq<NodeFact>)
    requires DistinctNames(nodes)
    requires forall n :: Belongs(m, both, n) <==> Belongs(m, g, n) && Belongs(m, h, n)
    ensures multiset(Names(m, both, nodes)) == multiset(Names(m, g, nodes)) * multiset(Names(m, h, nodes))
  {
    forall x ensures multiset(Names(m, both, nodes))[x]
                  == (multiset(Names(m, g, nodes)) * multiset(Names(m, h, nodes)))[x] {
      NamesOnce(m, g, nodes, x);
      NamesOnce(m, h, nodes, x);
      NamesOnce(m, both, nodes, x);
      if i :| 0 <= i < |nodes| && nodes[i].name == x {
        NamesMemberAt(m, g, nodes, i);
        NamesMemberAt(m, h, nodes, i);
        NamesMemberAt(m, both, nodes, i);
      } else {
        NamesMember(m, g, nodes, x);
        NamesMember(m, both, nodes, x);
      }
    }
  }

  /** With distinct names, no group lists a name twice. */
  lemma {:induction false} NamesOnce(m: Moment, g: Group, nodes: seq<NodeFact>, x: string)
    requires DistinctNames(nodes)
    ensures multiset(Names(m, g, nodes))[x] == if x in Names(m, g, nodes) then 1 else 0
  {
    if nodes != [] {
      var front, n := nodes[..|nodes| - 1], nodes[|nodes| - 1];
      NamesOnce(m, g, front, x);
      NamesMember(m, g, front, n.name);
    }
  }

  /**
   Selected nodes split into matched, unknown and cleared; matched nodes into pending, held and remediated.
   With distinct names the last two are what the held and the remediated list share with the matched one.
   */
  lemma Conservation(p: Policy, nodes: seq<NodeFact>, now: int)
    ensures
      var m := MomentOf(p, nodes, now);
      var d := DecisionFor(p, nodes, now);
      var matched := multiset(d.status.matchedNodes);
      var held, remediated := multiset(Names(m, HeldMatched, nodes)), multiset(Names(m, RemediatedMatched, nodes));
      && multiset(d.status.selectedNodes) ==
         matched + multiset(d.status.unknownNodes) + multiset(Names(m, Cleared, nodes))
      && matched == multiset(d.status.pendingNodes) + held + remediated
      && d.status.determinateCount == |d.status.selectedNodes| - |d.status.unknownNodes|
      && |d.status.matchedNodes| ==
           |d.status.pendingNodes| + |Names(m, HeldMatched, nodes)| + |Names(m, RemediatedMatched, nodes)|
      && (DistinctNames(nodes) ==>
            && held == multiset(d.heldMissingTimestamp) * matched
            && remediated == multiset(d.status.remediatedNodes) * matched)
  {
    var m := MomentOf(p, nodes, now);
    CountsAreSizes(p, nodes, now);
    SelectedSplits(m, nodes);
    MatchedSplits(m, nodes);
    if DistinctNames(nodes) {
      Intersection(m, Held, Matched, HeldMatched, nodes);
      Intersection(m, Remediated, Matched, RemediatedMatched, nodes);
    }
  }

  /** With distinct names, a group has as many nodes as names. */
  lemma {:induction false} NamesDistinct(m: Moment, g: Group, nodes: seq<NodeFact>)
    requires DistinctNames(nodes)
    ensures |set x | x in Names(m, g, nodes)| == |Names(m, g, nodes)|
  {
    if nodes != [] {
      var front, n := nodes[..|nodes| - 1], nodes[|nodes| - 1];
      NamesDistinct(m, g, front);
      NamesMember(m, g, front, n.name);
      var names := Names(m, g, front);
      assert n.name !in names;
      if Belongs(m, g, n) {
        assert (set x | x in names + [n.name]) == (set x | x in names) + {n.name};
      }
    }
  }

  /** The node a name stands for, and what each list says about it. */
  lemma ListsAreExact(p: Policy, nodes: seq<NodeFact>, now: int, i: nat)
    requires DistinctNames(nodes) && i < |nodes|
    ensures
      var m := MomentOf(p, nodes, now);
      var d := DecisionFor(p, nodes, now);
      var n := nodes[i];
      && (n.name in d.applyTaint <==> Belongs(m, Applying, n))
      && (n.name in d.removeTaint <==> Belongs(m, ScopedOut, n) || Belongs(m, Removing, n))
      && (n.name in d.status.selectedNodes <==> Belongs(m, Selected, n))
      && (n.name in d.status.matchedNodes <==> Belongs(m, Matched, n))
      && (n.name in d.heldMissingTimestamp <==> Belongs(m, Held, n))
      && (n.name in d.status.pendingNodes <==> Belongs(m, Pending, n))
      && (n.name in d.status.unknownNodes <==> Belongs(m, Unknown, n))
      && (n.name in d.status.remediatedNodes <==> Belongs(m, Remediated, n))
  {
    var m := MomentOf(p, nodes, now);
    forall g: Group ensures nodes[i].name in Names(m, g, nodes) <==> Belongs(m, g, nodes[i]) {
      NamesMemberAt(m, g, nodes, i);
    }
  }

  lemma NodeOf(m: Moment, g: Group, nodes: seq<NodeFact>, x: string) returns (i: nat)
    requires x in Names(m, g, nodes)
    ensures i < |nodes| && nodes[i].name == x && Belongs(m, g, nodes[i])
  {
    NamesMember(m, g, nodes, x);
    i :| 0 <= i < |nodes| && nodes[i].name == x && Belongs(m, g, nodes[i]);
  }

  /** With distinct names, groups without a common node list no common name. */
  lemma Apart(m: Moment, g: Group, h: Group, nodes: seq<NodeFact>, x: string)
    requires DistinctNames(nodes)
    requires forall n :: !(Belongs(m, g, n) && Belongs(m, h, n))
    ensures x in Names(m, g, nodes) ==> x !in Names(m, h, nodes)
  {
    if x in Names(m, g, nodes) {
      var i := NodeOf(m, g, nodes, x);
      NamesMemberAt(m, h, nodes, i);
    }
  }

  lemma AtMostOnce(m: Moment, g: Group, h: Group, nodes: seq<NodeFact>, x: string)
    requires DistinctNames(nodes)
    requires forall n :: !(Belongs(m, g, n) && Belongs(m, h, n))
    ensures multiset(Names(m, g, nodes))[x] + multiset(Names(m, h, nodes))[x] <= 1
  {
    NamesOnce(m, g, nodes, x);
    NamesOnce(m, h, nodes, x);
    Apart(m, g, h, nodes, x);
  }

  /** The pass makes at most one call for a node. */
  lemma ActedOnOnce(p: Policy, nodes: seq<NodeFact>, now: int, x: string)
    requires DistinctNames(nodes)
    ensures var d := DecisionFor(p, nodes, now); multiset(d.applyTaint)[x] + multiset(d.removeTaint)[x] <= 1
  {
    var m := MomentOf(p, nodes, now);
    AtMostOnce(m, Applying, ScopedOut, nodes, x);
    AtMostOnce(m, Applying, Removing, nodes, x);
    AtMostOnce(m, ScopedOut, Removing, nodes, x);
  }

  lemma AppliedNode(p: Policy, nodes: seq<NodeFact>, now: int, x: string)
    requires DistinctNames(nodes) && x in DecisionFor(p, nodes, now).applyTaint
    ensures
      var d := DecisionFor(p, nodes, now);
      x in d.status.pendingNodes && x !in d.status.remediatedNodes && x !in d.removeTaint
  {
    var i := NodeOf(MomentOf(p, nodes, now), Applying, nodes, x);
    ListsAreExact(p, nodes, now, i);
  }

  lemma RemovedNode(p: Policy, nodes: seq<NodeFact>, now: int, x: string)
    requires x in DecisionFor(p, nodes, now).removeTaint
    ensures exists i :: 0 <= i < |nodes| && nodes[i].name == x && nodes[i].hasTaint
  {
    var m := MomentOf(p, nodes, now);
    var i := NodeOf(m, if x in Names(m, ScopedOut, nodes) then ScopedOut else Removing, nodes, x);
  }

  lemma HeldNode(p: Policy, nodes: seq<NodeFact>, now: int, x: string)
    requires DistinctNames(nodes) && x in DecisionFor(p, nodes, now).heldMissingTimestamp
    ensures
      var d := DecisionFor(p, nodes, now);
      x !in d.status.unknownNodes && x !in d.status.pendingNodes && x !in d.applyTaint && x !in d.removeTaint
  {
    var m := MomentOf(p, nodes, now);
    Apart(m, Held, Unknown, nodes, x);
    Apart(m, Held, Pending, nodes, x);
    Apart(m, Held, Applying, nodes, x);
    Apart(m, Held, ScopedOut, nodes, x);
    Apart(m, Held, Removing, nodes, x);
  }

  /** Every listed name is a node's name, each node is acted on at most once, and never held as well. */
  lemma ActionsAreExclusive(p: Policy, nodes: seq<NodeFact>, now: int, x: string)
    requires DistinctNames(nodes)
    ensures
      var d := DecisionFor(p, nodes, now);
      && (x in d.applyTaint ==> x in d.status.pendingNodes && x !in d.status.remediatedNodes && x !in d.removeTaint)
      && (x in d.removeTaint ==> exists i :: 0 <= i < |nodes| && nodes[i].name == x && nodes[i].hasTaint)
      && (x in d.heldMissingTimestamp ==>
            x !in d.status.unknownNodes && x !in d.status.pendingNodes && x !in d.applyTaint && x !in d.removeTaint)
      && multiset(d.applyTaint)[x] + multiset(d.removeTaint)[x] <= 1
  {
    var d := DecisionFor(p, nodes, now);
    ActedOnOnce(p, nodes, now, x);
    if x in d.applyTaint {
      AppliedNode(p, nodes, now, x);
    }
    if x in d.removeTaint {
      RemovedNode(p, nodes, now, x);
    }
    if x in d.heldMissingTimestamp {
      HeldNode(p, nodes, now, x);
    }
  }

  /**
   When exactly a node is acted on, in terms of what was observed: a silent or undated condition never
   moves a selected node's taint, and a dated one only after its own debounce window.
   */
  lemma ActionsAreJustified(p: Policy, nodes: seq<NodeFact>, now: int, i: nat)
    requires DistinctNames(nodes) && i < |nodes|
    ensures
      var d := DecisionFor(p, nodes, now);
      var n := nodes[i];
      var c := n.condition;
      var selected := p.selector.None? || p.selector.value(n.labels);
      && (n.name in d.applyTaint <==>
            && selected && !n.hasTaint && !d.status.guardTripped
            && c.status == p.conditionStatus
            && c.lastTransition.Some? && now - c.lastTransition.value >= p.debounceEnter)
      && (n.name in d.removeTaint <==>
            && n.hasTaint
            && (selected ==>
                  && c.status !in {p.conditionStatus, "Unknown", ""}
                  && c.lastTransition.Some? && now - c.lastTransition.value >= p.debounceExit))
  {
    ListsAreExact(p, nodes, now, i);
  }

  // ----- the guard

  /** A decision that applies anything keeps the matched nodes carrying the taint within the allowed fraction. */
  lemma BlastRadius(p: Policy, nodes: seq<NodeFact>, now: int)
    requires p.maxAffectedPercent >= 0
    requires DecisionFor(p, nodes, now).applyTaint != []
    ensures
      var m := MomentOf(p, nodes, now);
      var d := DecisionFor(p, nodes, now);
      && |Names(m, RemediatedMatched, nodes)| + |d.applyTaint| <= p.maxAffectedPercent * d.status.determinateCount / 100
      && |d.status.remediatedNodes| + |d.applyTaint| <=
           p.maxAffectedPercent * d.status.determinateCount / 100 + |Names(m, RemediatedUnmatched, nodes)|
  {
    var m := MomentOf(p, nodes, now);
    var i := NodeOf(m, Applying, nodes, DecisionFor(p, nodes, now).applyTaint[0]);
    CountsAreSizes(p, nodes, now);
    SubgroupCount(m, Determinate, Matched, nodes);
    SubgroupCount(m, UntaintedMatched, Applying, nodes);
    MatchedAllowed(p, MatchedCount(p, nodes), DeterminateCount(p, nodes));
    TaintedSplits(m, nodes);
  }

  lemma MatchedAllowed(p: Policy, matched: nat, determinate: nat)
    requires p.maxAffectedPercent >= 0 && matched <= determinate
    requires !GuardTrips(p.maxAffectedPercent, matched, determinate)
    ensures matched <= p.maxAffectedPercent * determinate / 100
  {
    assert p.maxAffectedPercent * determinate >= 0;
  }

  lemma TaintedSplits(m: Moment, nodes: seq<NodeFact>)
    ensures |Names(m, Matched, nodes)| == |Names(m, UntaintedMatched, nodes)| + |Names(m, RemediatedMatched, nodes)|
    ensures |Names(m, Remediated, nodes)| ==
            |Names(m, RemediatedMatched, nodes)| + |Names(m, RemediatedUnmatched, nodes)|
  {
    SplitNames(m, Matched, UntaintedMatched, RemediatedMatched, nodes);
    SplitNames(m, Remediated, RemediatedMatched, RemediatedUnmatched, nodes);
  }

  function Instance(name: string, status: string, hasTaint: bool): NodeFact
  {
    NodeFact(name, map[], ConditionFact(status, Some(0)), hasTaint)
  }

  const HALF := Policy(None, "C", "True", Taint("k", "", "NoExecute"), 0, 0, 50)
  const SILENT_TAINTED := Instance("a", "Unknown", true)
  const MATCHED := Instance("b", "True", false)
  const CLEARED := Instance("c", "False", false)
  const TRIO := [SILENT_TAINTED, MATCHED, CLEARED]

  lemma TrioNames(m: Moment, g: Group)
    ensures Names(m, g, TRIO) == Extend(Extend(Extend([], Belongs(m, g, SILENT_TAINTED), "a"),
              Belongs(m, g, MATCHED), "b"), Belongs(m, g, CLEARED), "c")
  {
    NamesStep(m, g, TRIO, 0);
    NamesStep(m, g, TRIO, 1);
    NamesStep(m, g, TRIO, 2);
    assert TRIO[..3] == TRIO && TRIO[..0] == [];
  }

  lemma TrioGuard()
    ensures !Tripped(HALF, TRIO)
  {
    TrioNames(Moment(HALF, false, 0), Matched);
    TrioNames(Moment(HALF, false, 0), Determinate);
  }

  lemma TrioLists()
    ensures var m := Moment(HALF, false, 1);
            Names(m, Applying, TRIO) == ["b"] && |Names(m, Remediated, TRIO)| == 1 && |Names(m, Selected, TRIO)| == 3
  {
    var m := Moment(HALF, false, 1);
    TrioNames(m, Applying);
    TrioNames(m, Remediated);
    TrioNames(m, Selected);
  }

  /**
   The guard bounds the matched nodes only: tainted nodes that went Unknown leave both sides of the
   fraction, so a pass can leave more tainted nodes in scope than the percentage of selected nodes.
   */
  lemma GuardDoesNotBoundAllTainted()
    ensures
      var d := DecisionFor(HALF, TRIO, 1);
      && d.applyTaint == ["b"]
      && (|d.status.remediatedNodes| + |d.applyTaint|) * 100 > HALF.maxAffectedPercent * |d.status.selectedNodes|
  {
    TrioGuard();
    TrioLists();
  }

  /** A tripped guard empties the applies and touches nothing else but the wait for the blocked nodes. */
  lemma GuardOnlyBlocksApplies(p: Policy, nodes: seq<NodeFact>, now: int)
    ensures
      var off := DecisionFor(p.(maxAffectedPercent := 100), nodes, now);
      var d := DecisionFor(p, nodes, now);
      && !off.status.guardTripped
      && d.applyTaint == (if d.status.guardTripped then [] else off.applyTaint)
      && d.removeTaint == off.removeTaint
      && d.heldMissingTimestamp == off.heldMissingTimestamp
      && d.status.(guardTripped := false) == off.status
  {
    var q := p.(maxAffectedPercent := 100);
    GuardExtremes(q, nodes);
    var m, o := MomentOf(p, nodes, now), MomentOf(q, nodes, now);
    NamesAgree(Moment(p, false, 0), Moment(q, false, 0), Determinate, nodes);
    RemovalsAgree(m, o, nodes);
    StatusListsAgree(m, o, nodes);
    if m.tripped {
      if Names(m, Applying, nodes) != [] {
        var i := NodeOf(m, Applying, nodes, Names(m, Applying, nodes)[0]);
      }
    } else {
      NamesAgree(m, o, Applying, nodes);
    }
  }

  lemma RemovalsAgree(m: Moment, o: Moment, nodes: seq<NodeFact>)
    requires o.policy.(maxAffectedPercent := m.policy.maxAffectedPercent) == m.policy && m.now == o.now
    ensures Names(m, ScopedOut, nodes) == Names(o, ScopedOut, nodes)
    ensures Names(m, Removing, nodes) == Names(o, Removing, nodes)
    ensures Names(m, Held, nodes) == Names(o, Held, nodes)
  {
    NamesAgree(m, o, ScopedOut, nodes);
    NamesAgree(m, o, Removing, nodes);
    NamesAgree(m, o, Held, nodes);
  }

  /** The published lists depend on neither the guard nor its percentage nor the clock. */
  lemma StatusListsAgree(m: Moment, o: Moment, nodes: seq<NodeFact>)
    requires o.policy.(maxAffectedPercent := m.policy.maxAffectedPercent) == m.policy
    ensures Names(m, Selected, nodes) == Names(o, Selected, nodes)
    ensures Names(m, Matched, nodes) == Names(o, Matched, nodes)
    ensures Names(m, Pending, nodes) == Names(o, Pending, nodes)
    ensures Names(m, Unknown, nodes) == Names(o, Unknown, nodes)
    ensures Names(m, Remediated, nodes) == Names(o, Remediated, nodes)
  {
    NamesAgree(m, o, Selected, nodes);
    NamesAgree(m, o, Matched, nodes);
    NamesAgree(m, o, Pending, nodes);
    NamesAgree(m, o, Unknown, nodes);
    NamesAgree(m, o, Remediated, nodes);
  }

  /** At 100 percent the guard is off; at 0 it trips as soon as anything matches. */
  lemma GuardExtremes(p: Policy, nodes: seq<NodeFact>)
    ensures p.maxAffectedPercent >= 100 ==> !Tripped(p, nodes)
    ensures p.maxAffectedPercent == 0 ==>
              (Tripped(p, nodes) <==> exists i :: 0 <= i < |nodes| && InScope(p, nodes[i]) && Matches(p, nodes[i]))
  {
    var m := Moment(p, false, 0);
    SubgroupCount(m, Determinate, Matched, nodes);
    var names := Names(m, Matched, nodes);
    if names != [] {
      NamesMember(m, Matched, nodes, names[0]);
    }
    forall i | 0 <= i < |nodes| && InScope(p, nodes[i]) && Matches(p, nodes[i]) ensures names != [] {
      NamesMember(m, Matched, nodes, nodes[i].name);
    }
  }

  /** One more node, anywhere in the list: only a matched node can trip the guard, only a cleared one untrip it. */
  lemma GuardMonotone(p: Policy, a: seq<NodeFact>, n: NodeFact, b: seq<NodeFact>)
    requires 0 <= p.maxAffectedPercent <= 100
    ensures !InScope(p, n) || (!Matches(p, n) && Silent(n)) ==> (Tripped(p, a + [n] + b) <==> Tripped(p, a + b))
    ensures InScope(p, n) && Matches(p, n) && Tripped(p, a + b) ==> Tripped(p, a + [n] + b)
    ensures InScope(p, n) && !Matches(p, n) && !Silent(n) && !Tripped(p, a + b) ==> !Tripped(p, a + [n] + b)
  {
    var m := Moment(p, false, 0);
    forall g: Group
      ensures |Names(m, g, a + [n] + b)| == |Names(m, g, a + b)| + if Belongs(m, g, n) then 1 else 0
    {
      NamesConcat(m, g, a, b);
      NamesConcat(m, g, a, [n]);
      NamesConcat(m, g, a + [n], b);
      NamesStep(m, g, [n], 0);
      assert [n][..1] == [n] && [n][..0] == [];
    }
    SubgroupCount(m, Determinate, Matched, a + b);
    CrossMultiply(p.maxAffectedPercent, MatchedCount(p, a + b), DeterminateCount(p, a + b));
  }

  lemma CrossMultiply(percent: int, matched: nat, determinate: nat)
    requires 0 <= percent <= 100 && matched <= determinate
    ensures GuardTrips(percent, matched, determinate) ==> GuardTrips(percent, matched + 1, determinate + 1)
    ensures !GuardTrips(percent, matched, determinate) ==> !GuardTrips(percent, matched, determinate + 1)
  {
    assert percent * (determinate + 1) == percent * determinate + percent;
  }

  // ----- order independence

  lemma {:induction false} NamesPermuted(m: Moment, g: Group, a: seq<NodeFact>, b: seq<NodeFact>)
    requires multiset(a) == multiset(b)
    ensures multiset(Names(m, g, a)) == multiset(Names(m, g, b))
  {
    if a == [] {
      assert |multiset(b)| == 0;
    } else {
      var last := |a| - 1;
      var n := a[last];
      assert a == a[..last] + [n];
      assert n in multiset(b);
      var i :| 0 <= i < |b| && b[i] == n;
      assert b == b[..i] + [n] + b[i + 1..];
      assert multiset(b[..i] + b[i + 1..]) == multiset(b) - multiset{n};
      assert multiset(a[..last]) == multiset(a) - multiset{n};
      NamesPermuted(m, g, a[..last], b[..i] + b[i + 1..]);
      NamesConcat(m, g, a[..last], [n]);
      NamesConcat(m, g, b[..i], b[i + 1..]);
      NamesConcat(m, g, b[..i], [n]);
      NamesConcat(m, g, b[..i] + [n], b[i + 1..]);
    }
  }

  /** What it means to be the smallest remaining wait; independent of any order. */
  ghost predicate IsLeastWait(m: Moment, nodes: seq<NodeFact>, r: int)
  {
    && (forall n :: n in nodes && Belongs(m, Waiting, n) ==> 0 < r <= Due(m.policy, n) - m.now)
    && (r != 0 ==> exists n :: n in nodes && Belongs(m, Waiting, n) && r == Due(m.policy, n) - m.now)
  }

  lemma {:induction false} LeastWaitIsLeast(m: Moment, nodes: seq<NodeFact>)
    ensures IsLeastWait(m, nodes, LeastWait(m, nodes))
  {
    if nodes != [] {
      var front, n := nodes[..|nodes| - 1], nodes[|nodes| - 1];
      LeastWaitIsLeast(m, front);
      assert nodes == front + [n];
      var r := LeastWait(m, nodes);
      if r != 0 {
        if r == LeastWait(m, front) {
          var w :| w in front && Belongs(m, Waiting, w) && r == Due(m.policy, w) - m.now;
          assert w in nodes;
        } else {
          assert n in nodes;
        }
      }
    }
  }

  lemma LeastWaitUnique(m: Moment, a: seq<NodeFact>, b: seq<NodeFact>)
    requires forall n :: Belongs(m, Waiting, n) ==> (n in a <==> n in b)
    ensures LeastWait(m, a) == LeastWait(m, b)
  {
    LeastWaitIsLeast(m, a);
    LeastWaitIsLeast(m, b);
  }

  /** Permuting the node list permutes the lists of the decision and changes no number in it. */
  lemma OrderIndependence(p: Policy, a: seq<NodeFact>, b: seq<NodeFact>, now: int)
    requires multiset(a) == multiset(b)
    ensures
      var d, e := DecisionFor(p, a, now), DecisionFor(p, b, now);
      && multiset(d.applyTaint) == multiset(e.applyTaint)
      && multiset(d.removeTaint) == multiset(e.removeTaint)
      && multiset(d.heldMissingTimestamp) == multiset(e.heldMissingTimestamp)
      && d.requeueAfter == e.requeueAfter
      && multiset(d.status.selectedNodes) == multiset(e.status.selectedNodes)
      && multiset(d.status.matchedNodes) == multiset(e.status.matchedNodes)
      && multiset(d.status.pendingNodes) == multiset(e.status.pendingNodes)
      && multiset(d.status.unknownNodes) == multiset(e.status.unknownNodes)
      && multiset(d.status.remediatedNodes) == multiset(e.status.remediatedNodes)
      && d.status.guardTripped == e.status.guardTripped
      && d.status.determinateCount == e.status.determinateCount
  {
    forall m: Moment, g: Group
      ensures multiset(Names(m, g, a)) == multiset(Names(m, g, b)) && |Names(m, g, a)| == |Names(m, g, b)|
    {
      NamesPermuted(m, g, a, b);
      assert |multiset(Names(m, g, a))| == |Names(m, g, a)|;
      assert |multiset(Names(m, g, b))| == |Names(m, g, b)|;
    }
    forall n: NodeFact ensures n in a <==> n in b {
      assert n in multiset(a) <==> n in multiset(b);
    }
    LeastWaitUnique(MomentOf(p, a, now), a, b);
  }
}
