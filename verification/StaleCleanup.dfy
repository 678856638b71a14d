/**
 All three parts of the set-up are needed for non-interference. With any two of them alone there is a run in
 which a policy is deleted and cleaned up, a new policy takes over its key and applies its taint, and a late
 pass that read the deletion takes the new owner's taint off.
 */
module StaleCleanup {
  import opened Domain
  import TaintList
  import opened Fleet
  import opened NoStrandedTaints
  import opened NonInterference
  import opened OneWorker

  /**
   What is missing. Serial: the caches of the policies lag separately. Ordered: there are several workers.
   Restarted: a new operator lists an older moment than the one before it had seen.
   */
  datatype Setup = Serial | Ordered | Restarted

  ghost predicate Obeys(setup: Setup, s: State, actions: seq<Action>)
  {
    && (setup.Ordered? || OneAtATime(s, actions))
    && (setup.Serial? || InOrder(s, actions))
    && (setup.Restarted? || NeverBack(s, actions))
    && SoundStarts(s, actions)
  }

  const TAINTED := SICK.(taints := [TAINT])
  const CLEAN := map["n" := SICK]
  const START := State(map[], CLEAN)
  const CREATED := Present(SPEC, false, false)
  const LIVE := Present(SPEC, false, true)
  const ENDING := Present(SPEC, true, true)

  /** A policy with its finalizer stored, about to list nodes. */
  const PLANNING := Track([Absent, CREATED], LIVE, 1, Planning(SPEC))

  /** A deleted policy about to release its finalizer. */
  const RELEASING := Track([Absent, CREATED, LIVE], ENDING, 3, Releasing(3))

  /** The policy is gone; the cache has not seen it go. */
  const GONE_UNSEEN := Track([Absent, CREATED, LIVE, ENDING], Absent, 3, Idle)

  /** A pass on the deletion was started just before the cache saw the policy go. */
  const LATE := Track([Absent, CREATED, LIVE, ENDING], Absent, 4, Listing(3))

  /** Nobody but the operator touches a node on the way. */
  ghost predicate Reaches(setup: Setup, actions: seq<Action>, end: State)
  {
    Run(START, actions) == end && Obeys(setup, START, actions) && QuietRun(START, actions, "k")
  }

  /** A pass may start here, on a cache that shows the stored policies as far as the set-up demands it. */
  ghost predicate Ready(setup: Setup, s: State)
  {
    (setup.Ordered? || AllIdle(s)) && (setup.Serial? || Shows(s, s))
  }

  lemma Then(setup: Setup, actions: seq<Action>, mid: State, a: Action, end: State) returns (longer: seq<Action>)
    requires Reaches(setup, actions, mid) && !IsNodeAction(a) && Step(mid, a) == end
    requires a.Start? ==> Ready(setup, mid) && StartsHeld(mid, a)
    requires a.MoveCache? ==> setup.Restarted? || !GoesBack(mid, a)
    ensures Reaches(setup, longer, end)
    ensures longer == actions + [a]
  {
    longer := actions + [a];
    RunOneMore(START, actions, a);
    assert longer[..|actions|] == actions;
    assert actions[..|actions|] == actions;
  }

  /** A policy as it is created and as the cache first shows it. */
  const NEW := Track([Absent], CREATED, 0, Idle)
  const SHOWN := NEW.(cache := 1)

  lemma CreateStep(s: State, p: string)
    requires p !in s.policies && Admits(s, p, SPEC)
    ensures Step(s, CreatePolicy(p, SPEC)) == SetTrack(s, p, NEW)
    ensures Step(SetTrack(s, p, NEW), MoveCache(p, 1)) == SetTrack(s, p, SHOWN)
  {
    assert [] + [Absent] == [Absent];
  }

  lemma EnrollStep(s: State, p: string)
    ensures Step(SetTrack(s, p, SHOWN), Start(p)) == SetTrack(s, p, SHOWN.(pass := AddingFinalizer(1)))
    ensures Step(SetTrack(s, p, SHOWN.(pass := AddingFinalizer(1))), StoreFinalizer(p, Acked)) ==
            SetTrack(s, p, PLANNING)
  {
    assert [Absent] + [CREATED] == [Absent, CREATED];
  }

  lemma ReadyToStart(setup: Setup, s: State, p: string)
    requires Ready(setup, s)
    ensures Ready(setup, SetTrack(s, p, SHOWN)) && StartsHeld(SetTrack(s, p, SHOWN), Start(p))
  {
    var s' := SetTrack(s, p, SHOWN);
    assert forall q: string :: q != p ==> TrackOf(s', q) == TrackOf(s, q);
  }

  /** From creation to a stored finalizer, next to whatever other policies there are. */
  lemma Enroll(setup: Setup, before: seq<Action>, s: State, p: string) returns (actions: seq<Action>)
    requires Reaches(setup, before, s) && p !in s.policies && Admits(s, p, SPEC) && Ready(setup, s)
    ensures Reaches(setup, actions, SetTrack(s, p, PLANNING)) && before <= actions
  {
    CreateStep(s, p);
    EnrollStep(s, p);
    ReadyToStart(setup, s, p);
    actions := Then(setup, before, s, CreatePolicy(p, SPEC), SetTrack(s, p, NEW));
    actions := Then(setup, actions, SetTrack(s, p, NEW), MoveCache(p, 1), SetTrack(s, p, SHOWN));
    actions := Then(setup, actions, SetTrack(s, p, SHOWN), Start(p),
      SetTrack(s, p, SHOWN.(pass := AddingFinalizer(1))));
    actions := Then(setup, actions, SetTrack(s, p, SHOWN.(pass := AddingFinalizer(1))), StoreFinalizer(p, Acked),
      SetTrack(s, p, PLANNING));
  }

  /** The only policy is "a". */
  function Only(a: Track): State
  {
    State(map["a" := a], CLEAN)
  }

  const ENDED := RELEASING.(cache := 1, pass := Idle)

  lemma DeleteStep()
    ensures Step(Only(PLANNING), Crash("a")) == Only(PLANNING.(pass := Idle))
    ensures Step(Only(PLANNING.(pass := Idle)), DeletePolicy("a")) == Only(ENDED)
  {
    assert PLANNING.history + [LIVE] == RELEASING.history;
    assert map["a" := PLANNING]["a" := PLANNING.(pass := Idle)] == map["a" := PLANNING.(pass := Idle)];
  }

  lemma Delete(setup: Setup, before: seq<Action>) returns (actions: seq<Action>)
    requires Reaches(setup, before, Only(PLANNING))
    ensures Reaches(setup, actions, Only(ENDED))
  {
    DeleteStep();
    actions := Then(setup, before, Only(PLANNING), Crash("a"), Only(PLANNING.(pass := Idle)));
    actions := Then(setup, actions, Only(PLANNING.(pass := Idle)), DeletePolicy("a"), Only(ENDED));
  }

  lemma NoticeStep()
    ensures Step(Only(ENDED), MoveCache("a", 3)) == Only(ENDED.(cache := 3))
    ensures Step(Only(ENDED.(cache := 3)), Start("a")) == Only(RELEASING.(pass := Listing(3)))
  {
  }

  lemma Notice(setup: Setup, before: seq<Action>) returns (actions: seq<Action>)
    requires Reaches(setup, before, Only(ENDED))
    ensures Reaches(setup, actions, Only(RELEASING.(pass := Listing(3))))
  {
    NoticeStep();
    actions := Then(setup, before, Only(ENDED), MoveCache("a", 3), Only(ENDED.(cache := 3)));
    actions := Then(setup, actions, Only(ENDED.(cache := 3)), Start("a"), Only(RELEASING.(pass := Listing(3))));
  }

  lemma EmptyListing()
    ensures Step(Only(RELEASING.(pass := Listing(3))), ListForCleanup("a", ["n"]))
         == Only(RELEASING.(pass := Cleaning(3, [], false)))
  {
    assert CarriersIn(CLEAN, ["n"], "k") == [];
  }

  lemma CleanUpStep()
    ensures Step(Only(RELEASING.(pass := Cleaning(3, [], false))), CleanTaint("a", Acked)) == Only(RELEASING)
  {
  }

  lemma CleanUp(setup: Setup, before: seq<Action>) returns (actions: seq<Action>)
    requires Reaches(setup, before, Only(RELEASING.(pass := Listing(3))))
    ensures Reaches(setup, actions, Only(RELEASING))
  {
    EmptyListing();
    CleanUpStep();
    var cleaning := RELEASING.(pass := Cleaning(3, [], false));
    actions := Then(setup, before, Only(RELEASING.(pass := Listing(3))), ListForCleanup("a", ["n"]), Only(cleaning));
    actions := Then(setup, actions, Only(cleaning), CleanTaint("a", Acked), Only(RELEASING));
  }

  lemma ReleaseStep()
    ensures Step(Only(RELEASING), ReleaseFinalizer("a", Acked)) == Only(GONE_UNSEEN)
  {
    assert RELEASING.history + [ENDING] == GONE_UNSEEN.history;
  }

  lemma LateStep()
    ensures Step(Only(GONE_UNSEEN), Start("a")) == Only(GONE_UNSEEN.(pass := Listing(3)))
    ensures Step(Only(GONE_UNSEEN.(pass := Listing(3))), MoveCache("a", 4)) == Only(LATE)
    ensures Step(Only(GONE_UNSEEN), MoveCache("a", 4)) == Only(GONE_UNSEEN.(cache := 4))
  {
  }

  /** A pass may start on a moment some steps back, if the cache shows that one. */
  lemma LateStart(setup: Setup, before: seq<Action>, earlier: State, actions: seq<Action>, now: State)
    returns (longer: seq<Action>)
    requires !setup.Serial? && Reaches(setup, before, earlier) && Reaches(setup, actions, now) && before <= actions
    requires Shows(now, earlier) && (setup.Ordered? || AllIdle(now)) && StartsHeld(now, Start("a"))
    ensures Reaches(setup, longer, Step(now, Start("a"))) && before <= longer
  {
    longer := actions + [Start("a")];
    RunOneMore(START, actions, Start("a"));
    assert longer[..|actions|] == actions;
    assert actions[..|before|] == before;
    assert Shows(Run(START, actions), Run(START, actions[..|before|]));
  }

  /** How the cache stands when "b" comes: with several workers a second pass on the deletion is under way. */
  function Departed(setup: Setup): Track
  {
    match setup
    case Serial => GONE_UNSEEN
    case Ordered => LATE
    case Restarted => GONE_UNSEEN.(cache := 4)
  }

  /** The policy goes; with several workers, a second pass reads the deletion just before the cache sees it go. */
  lemma Release(setup: Setup, before: seq<Action>) returns (actions: seq<Action>)
    requires Reaches(setup, before, Only(RELEASING))
    ensures Reaches(setup, actions, Only(Departed(setup))) && before <= actions
  {
    ReleaseStep();
    actions := Then(setup, before, Only(RELEASING), ReleaseFinalizer("a", Acked), Only(GONE_UNSEEN));
    LateStep();
    if setup.Ordered? {
      actions := LateStart(setup, before, Only(RELEASING), actions, Only(GONE_UNSEEN));
      actions := Then(setup, actions, Only(GONE_UNSEEN.(pass := Listing(3))), MoveCache("a", 4), Only(LATE));
    } else if setup.Restarted? {
      actions := Then(setup, actions, Only(GONE_UNSEEN), MoveCache("a", 4), Only(GONE_UNSEEN.(cache := 4)));
    }
  }

  /** The policy "b" after its whole pass. */
  const DONE := PLANNING.(pass := Idle)

  function Both(a: Track, b: Track, n: Node): State
  {
    State(map["a" := a, "b" := b], map["n" := n])
  }

  lemma PlanStep(a: Track)
    ensures Step(Both(a, PLANNING, SICK), Plan("b", None, ["n"], 5))
         == Both(a, PLANNING.(pass := Acting(SPEC, ["n"], [])), SICK)
  {
    OneNodeApplied("n", SICK, SPEC, TAINT, 5);
    assert Planned(CLEAN, PLANNING, None, ["n"], 5) == Acting(SPEC, ["n"], []);
    var m := map["a" := a, "b" := PLANNING];
    assert m["b" := PLANNING.(pass := Acting(SPEC, ["n"], []))]
        == map["a" := a, "b" := PLANNING.(pass := Acting(SPEC, ["n"], []))];
  }

  lemma WriteStep(a: Track)
    ensures Step(Both(a, PLANNING.(pass := Acting(SPEC, ["n"], [])), SICK), WriteTaint("b", Acked))
         == Both(a, PLANNING.(pass := Acting(SPEC, [], [])), TAINTED)
    ensures Step(Both(a, PLANNING.(pass := Acting(SPEC, [], [])), TAINTED), WriteTaint("b", Acked)) ==
            Both(a, DONE, TAINTED)
  {
    assert SICK.taints + [TAINT] == [TAINT];
    assert EditTaints(CLEAN, "n", TaintList.Ensure(TAINT)) == map["n" := TAINTED];
    assert ["n"][1..] == [];
  }

  lemma NewOwnerApplies(setup: Setup, before: seq<Action>, a: Track) returns (actions: seq<Action>)
    requires Reaches(setup, before, Both(a, PLANNING, SICK))
    ensures Reaches(setup, actions, Both(a, DONE, TAINTED)) && before <= actions
  {
    PlanStep(a);
    WriteStep(a);
    var b0, b1 := PLANNING.(pass := Acting(SPEC, ["n"], [])), PLANNING.(pass := Acting(SPEC, [], []));
    actions := Then(setup, before, Both(a, PLANNING, SICK), Plan("b", None, ["n"], 5), Both(a, b0, SICK));
    actions := Then(setup, actions, Both(a, b0, SICK), WriteTaint("b", Acked), Both(a, b1, TAINTED));
    actions := Then(setup, actions, Both(a, b1, TAINTED), WriteTaint("b", Acked), Both(a, DONE, TAINTED));
  }

  lemma UnseenStart(b: Track)
    ensures Step(Both(GONE_UNSEEN, b, TAINTED), Start("a")) == Both(GONE_UNSEEN.(pass := Listing(3)), b, TAINTED)
  {
  }

  /** A new operator lists the policies as they were when "a" was about to be released. */
  lemma RestartStep()
    ensures Step(Both(GONE_UNSEEN.(cache := 4), DONE, TAINTED), MoveCache("a", 3)) == Both(GONE_UNSEEN, DONE, TAINTED)
    ensures Step(Both(GONE_UNSEEN, DONE, TAINTED), MoveCache("b", 0)) == Both(GONE_UNSEEN, DONE.(cache := 0), TAINTED)
  {
  }

  lemma RestartShows()
    ensures var now := Both(GONE_UNSEEN, DONE.(cache := 0), TAINTED);
            Shows(now, Only(RELEASING)) && AllIdle(now) && StartsHeld(now, Start("a"))
  {
  }

  lemma Restart(setup: Setup, released: seq<Action>, before: seq<Action>) returns (actions: seq<Action>)
    requires setup.Restarted? && Reaches(setup, released, Only(RELEASING)) && released <= before
    requires Reaches(setup, before, Both(GONE_UNSEEN.(cache := 4), DONE, TAINTED))
    ensures Reaches(setup, actions, Both(GONE_UNSEEN.(pass := Listing(3)), DONE.(cache := 0), TAINTED))
  {
    RestartStep();
    RestartShows();
    UnseenStart(DONE.(cache := 0));
    actions := Then(setup, before, Both(GONE_UNSEEN.(cache := 4), DONE, TAINTED), MoveCache("a", 3),
      Both(GONE_UNSEEN, DONE, TAINTED));
    actions := Then(setup, actions, Both(GONE_UNSEEN, DONE, TAINTED), MoveCache("b", 0),
      Both(GONE_UNSEEN, DONE.(cache := 0), TAINTED));
    actions := LateStart(setup, released, Only(RELEASING), actions, Both(GONE_UNSEEN, DONE.(cache := 0), TAINTED));
  }

  lemma ListStep(a: Track, b: Track)
    requires a.history == LATE.history && a.pass == Listing(3)
    ensures
      Step(Both(a, b, TAINTED), ListForCleanup("a", ["n"])) ==
        Both(a.(pass := Cleaning(3, ["n"], false)), b, TAINTED)
  {
    assert TAINTED.taints[0].key == "k" && ["n"][1..] == [];
    assert CarriersIn(map["n" := TAINTED], ["n"], "k") == ["n"];
  }

  /** A late pass on the deletion of "a" is about to list the nodes. */
  lemma LatePass(setup: Setup, released: seq<Action>, before: seq<Action>)
    returns (actions: seq<Action>, a: Track, b: Track)
    requires Reaches(setup, released, Only(RELEASING)) && released <= before
    requires Reaches(setup, before, Both(Departed(setup), DONE, TAINTED))
    ensures Reaches(setup, actions, Both(a, b, TAINTED))
    ensures a.pass == Listing(3) && a.history == LATE.history && b == DONE.(cache := b.cache)
  {
    match setup
    case Serial =>
      UnseenStart(DONE);
      a, b := GONE_UNSEEN.(pass := Listing(3)), DONE;
      actions := Then(setup, before, Both(GONE_UNSEEN, DONE, TAINTED), Start("a"), Both(a, b, TAINTED));
    case Ordered =>
      actions, a, b := before, LATE, DONE;
    case Restarted =>
      a, b := GONE_UNSEEN.(pass := Listing(3)), DONE.(cache := 0);
      actions := Restart(setup, released, before);
  }

  lemma Stripped(a: Track, b: Track)
    requires a.pass == Cleaning(3, ["n"], false) && a.history == LATE.history && b == DONE.(cache := b.cache)
    ensures
      var s := Both(a, b, TAINTED);
      && StoredWith(s, "b", "k") && HoldsKey(s.policies["b"].latest, "k")
      && Strips(s, CleanTaint("a", Acked), "b", "k")
      && Carries(s.nodes, "n", "k") && !Carries(Step(s, CleanTaint("a", Acked)).nodes, "n", "k")
  {
    assert TAINTED.taints[0].key == "k";
    RemoveEffect(map["n" := TAINTED], "n", "k", "n", "k");
  }

  /** The first part of every run: "a" comes, is deleted and is cleaned up after. */
  lemma FirstLife(setup: Setup) returns (actions: seq<Action>)
    ensures Reaches(setup, actions, Only(RELEASING))
  {
    assert !CarriesKey(SICK.taints, "k");
    actions := Enroll(setup, [], START, "a");
    assert SetTrack(START, "a", PLANNING) == Only(PLANNING);
    actions := Delete(setup, actions);
    actions := Notice(setup, actions);
    actions := CleanUp(setup, actions);
  }

  /** The second part: "a" is gone, "b" takes over its key and applies its taint. */
  lemma SecondOwner(setup: Setup, released: seq<Action>) returns (actions: seq<Action>)
    requires Reaches(setup, released, Only(RELEASING))
    ensures Reaches(setup, actions, Both(Departed(setup), DONE, TAINTED)) && released <= actions
  {
    actions := Release(setup, released);
    var a := Departed(setup);
    actions := Enroll(setup, actions, Only(a), "b");
    assert SetTrack(Only(a), "b", PLANNING) == Both(a, PLANNING, SICK);
    actions := NewOwnerApplies(setup, actions, a);
  }

  /**
   Whichever part of the set-up is missing: a run from an empty cluster, without foreign writes, after which
   the next step of a late cleanup strips the taint of the key's stored owner.
   */
  lemma StaleCleanupInterferes(setup: Setup) returns (actions: seq<Action>)
    ensures Initial(START, "k") && Obeys(setup, START, actions) && QuietRun(START, actions, "k")
    ensures
      var s := Run(START, actions);
      var a := CleanTaint("a", Acked);
      && StoredWith(s, "b", "k") && HoldsKey(s.policies["b"].latest, "k")
      && Strips(s, a, "b", "k")
      && Carries(s.nodes, "n", "k") && !Carries(Step(s, a).nodes, "n", "k")
  {
    var released := FirstLife(setup);
    actions := SecondOwner(setup, released);
    var a, b;
    actions, a, b := LatePass(setup, released, actions);
    ListStep(a, b);
    var listed := a.(pass := Cleaning(3, ["n"], false));
    actions := Then(setup, actions, Both(a, b, TAINTED), ListForCleanup("a", ["n"]), Both(listed, b, TAINTED));
    Stripped(listed, b);
    assert !CarriesKey(SICK.taints, "k");
  }
}
