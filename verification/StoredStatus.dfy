/**
 The stored status against the computed one. A pass that reads an old version patches only what differs from
 that version, so the store may mix two decisions; a pass that reads the stored version puts it right.
 */
module StoredStatus {
  import opened Domain
  import opened Remediation
  import opened DecisionLaws
  import opened Sorting
  import opened StatusReport
  import opened WarningRuns

  predicate KeepsField<T(==)>(stored: T, read: T, result: T)
  {
    result == read ==> stored == result
  }

  /** Whatever the result leaves as it was read is still stored that way. */
  predicate Unmoved(stored: Published, read: Published, result: Published)
  {
    && KeepsField(stored.selectedNodes, read.selectedNodes, result.selectedNodes)
    && KeepsField(stored.matchedNodes, read.matchedNodes, result.matchedNodes)
    && KeepsField(stored.pendingNodes, read.pendingNodes, result.pendingNodes)
    && KeepsField(stored.unknownNodes, read.unknownNodes, result.unknownNodes)
    && KeepsField(stored.heldNodes, read.heldNodes, result.heldNodes)
    && KeepsField(stored.remediatedNodes, read.remediatedNodes, result.remediatedNodes)
    && KeepsField(stored.selectedCount, read.selectedCount, result.selectedCount)
    && KeepsField(stored.matchedCount, read.matchedCount, result.matchedCount)
    && KeepsField(stored.pendingCount, read.pendingCount, result.pendingCount)
    && KeepsField(stored.remediatedCount, read.remediatedCount, result.remediatedCount)
    && KeepsField(stored.unknownCount, read.unknownCount, result.unknownCount)
    && KeepsField(stored.heldCount, read.heldCount, result.heldCount)
    && KeepsField(stored.condition, read.condition, result.condition)
  }

  /** A persisted pass leaves exactly what it computed if and only if nothing it left alone has moved since it read. */
  lemma StoresWhatItComputed(initial: Published, passes: seq<Pass>, k: nat)
    requires CachedReads(passes) && k < |passes| && passes[k].persisted
    ensures
      var read := ReadBy(initial, passes, k);
      var result := Publishes(read, passes[k]);
      Stored(initial, passes, k + 1) == result <==> Unmoved(Stored(initial, passes, k), read, result)
  {
  }

  /** In particular a pass that reads the stored version does, so it repairs whatever stale passes have mixed. */
  lemma FreshPassHeals(initial: Published, passes: seq<Pass>, k: nat)
    requires CachedReads(passes) && k < |passes| && passes[k].persisted && passes[k].seen == k
    ensures Stored(initial, passes, k + 1) == Publishes(Stored(initial, passes, k), passes[k])
  {
    StoresWhatItComputed(initial, passes, k);
  }

  /** The pass would publish this status, or publishes nothing. */
  predicate Agrees(pass: Pass, status: Published)
  {
    pass.outcome.Aborted? || (pass.outcome.Decided? && StatusOf(pass.outcome.d, pass.generation) == status)
  }

  /**
   And the repair lasts: while later passes compute the same status, however old the versions they read
   and whether or not their patches go through, exactly that status stays stored.
   */
  lemma {:induction false} StaysHealed(initial: Published, passes: seq<Pass>, k: nat, j: nat)
    requires CachedReads(passes) && k < j <= |passes|
    requires passes[k].persisted && passes[k].seen == k && passes[k].outcome.Decided?
    requires forall m :: k < m < j ==> Agrees(passes[m], StatusOf(passes[k].outcome.d, passes[k].generation))
    ensures Stored(initial, passes, j) == StatusOf(passes[k].outcome.d, passes[k].generation)
    decreases j - k
  {
    if j == k + 1 {
      FreshPassHeals(initial, passes, k);
    } else {
      StaysHealed(initial, passes, k, j - 1);
    }
  }

  const CALM_POLICY := Policy(None, "C", "True", Taint("k", "", "NoExecute"), 0, 0, 100)

  /** A node that matches without a date, or one that is clear. */
  function Beat(name: string, undated: bool): NodeFact
  {
    NodeFact(name, map[], if undated then ConditionFact("True", None) else ConditionFact("False", Some(0)), false)
  }

  function Pair(a: bool, b: bool): seq<NodeFact>
  {
    [Beat("a", a), Beat("b", b)]
  }

  function DecidedOn(a: bool, b: bool): Decision
  {
    DecisionFor(CALM_POLICY, Pair(a, b), 1)
  }

  lemma PairNames(m: Moment, g: Group, a: bool, b: bool)
    ensures Names(m, g, Pair(a, b)) ==
            Extend(Extend([], Belongs(m, g, Beat("a", a)), "a"), Belongs(m, g, Beat("b", b)), "b")
  {
    NamesStep(m, g, Pair(a, b), 0);
    NamesStep(m, g, Pair(a, b), 1);
    assert Pair(a, b)[..0] == [] && Pair(a, b)[..2] == Pair(a, b);
  }

  /** A decision of which all there is to say is whether "a" or "b" is held. */
  predicate OnlyHolds(d: Decision, a: bool, b: bool)
  {
    && !d.status.guardTripped
    && d.heldMissingTimestamp == Extend(Extend([], a, "a"), b, "b")
    && d.status.remediatedNodes == [] && d.status.pendingNodes == [] && d.status.unknownNodes == []
  }

  lemma PairDecision(a: bool, b: bool)
    ensures OnlyHolds(DecidedOn(a, b), a, b)
  {
    GuardExtremes(CALM_POLICY, Pair(a, b));
    var m := MomentOf(CALM_POLICY, Pair(a, b), 1);
    PairNames(m, Group.Held, a, b);
    PairNames(m, Remediated, a, b);
    PairNames(m, Group.Pending, a, b);
    PairNames(m, Unknown, a, b);
  }

  /** The fields of the status by which the two are told apart. */
  predicate ShowsHeld(status: Published, held: seq<string>, generation: int)
  {
    && status.heldNodes == held
    && status.heldCount == |held|
    && status.condition == Some(Condition(false, if held == [] then NoRemediation else Reason.Held,
                                  if held == [] then Plain else Count(|held|), generation))
  }

  lemma SortedOne(x: string)
    ensures Sorted([x]) == [x]
  {
    assert [x][..0] == [];
  }

  lemma HeldStatus(d: Decision, a: bool, b: bool, generation: int)
    requires OnlyHolds(d, a, b) && !(a && b)
    ensures ShowsHeld(StatusOf(d, generation), if a then ["a"] else if b then ["b"] else [], generation)
  {
    SortedOne("a");
    SortedOne("b");
  }

  /** Two passes that read the stored status, and a third that still reads the first one's. */
  function ThirdReadsFirst(d0: Decision, d1: Decision, d2: Decision, generation: int): seq<Pass>
  {
    [Pass(Decided(d0), generation, 0, true),
     Pass(Decided(d1), generation, 1, true),
     Pass(Decided(d2), generation, 1, true)]
  }

  lemma ThirdMerges(initial: Published, d0: Decision, d1: Decision, d2: Decision, generation: int)
    ensures
      var passes := ThirdReadsFirst(d0, d1, d2, generation);
      && CachedReads(passes)
      && Stored(initial, passes, 3) ==
         Merged(StatusOf(d1, generation), StatusOf(d0, generation), StatusOf(d2, generation))
  {
    var passes := ThirdReadsFirst(d0, d1, d2, generation);
    FreshPassHeals(initial, passes, 0);
    FreshPassHeals(initial, passes, 1);
  }

  /**
   A stale read can mix two decisions in the store. First "b" is held, then nothing, and a third pass that
   still reads the first status finds "a" held instead: the number and the condition are what it read, so
   they are not patched, and the store lists a held node, counts none and reports nothing to remediate.
   */
  lemma StaleReadMixes(initial: Published, generation: int)
    ensures
      var d0, d1, d2 := DecidedOn(false, true), DecidedOn(false, false), DecidedOn(true, false);
      var passes := ThirdReadsFirst(d0, d1, d2, generation);
      && CachedReads(passes)
      && ReasonFor(d2) == Reason.Held
      && var status := Stored(initial, passes, 3);
         status.heldNodes == ["a"] && status.heldCount == 0 && HasReason(status, NoRemediation)
  {
    var d0, d1, d2 := DecidedOn(false, true), DecidedOn(false, false), DecidedOn(true, false);
    PairDecision(false, true);
    PairDecision(false, false);
    PairDecision(true, false);
    ThirdMerges(initial, d0, d1, d2, generation);
    MixedHeld(d0, d1, d2, generation);
  }

  lemma MixedHeld(d0: Decision, d1: Decision, d2: Decision, generation: int)
    requires OnlyHolds(d0, false, true) && OnlyHolds(d1, false, false) && OnlyHolds(d2, true, false)
    ensures ReasonFor(d2) == Reason.Held
    ensures var status := Merged(StatusOf(d1, generation), StatusOf(d0, generation), StatusOf(d2, generation));
            status.heldNodes == ["a"] && status.heldCount == 0 && HasReason(status, NoRemediation)
  {
    HeldStatus(d0, false, true, generation);
    HeldStatus(d1, false, false, generation);
    HeldStatus(d2, true, false, generation);
    MixedStatus(StatusOf(d1, generation), StatusOf(d0, generation), StatusOf(d2, generation), generation);
  }

  lemma MixedStatus(stored: Published, read: Published, result: Published, generation: int)
    requires ShowsHeld(stored, [], generation) && ShowsHeld(read, ["b"], generation)
    requires ShowsHeld(result, ["a"], generation)
    ensures var status := Merged(stored, read, result);
            status.heldNodes == ["a"] && status.heldCount == 0 && HasReason(status, NoRemediation)
  {
    assert ["a"][0] != ["b"][0];
  }
}
