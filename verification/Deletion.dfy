/** A deleted policy is not stuck: one undisturbed cleanup pass strips its key everywhere and lets it go. */
module Deletion {
  import opened Domain
  import opened Fleet
  import opened NoStrandedTaints

  predicate OwnSteps(actions: seq<Action>, p: string)
  {
    forall i :: 0 <= i < |actions| ==> !IsNodeAction(actions[i]) && !IsUserAction(actions[i]) && actions[i].policy == p
  }

  lemma OneClean(s: State, p: string, key: string, n: string)
    requires p in s.policies && s.policies[p].pass.Cleaning? && !s.policies[p].pass.failed
    requires s.policies[p].pass.todo != []
    requires CleanupKey(s.policies[p], s.policies[p].pass.read) == Some(key) && s.policies[p].pass.todo[0] in s.nodes
    ensures
      var t := s.policies[p];
      var s' := Step(s, CleanTaint(p, Acked));
      && s'.policies == s.policies[p := t.(pass := Cleaning(t.pass.read, t.pass.todo[1..], false))]
      && s'.nodes.Keys == s.nodes.Keys
      && (Carries(s'.nodes, n, key) ==> Carries(s.nodes, n, key) && n != t.pass.todo[0])
  {
    RemoveEffect(s.nodes, s.policies[p].pass.todo[0], key, n, key);
  }

  /** Working off the list strips the key from every node on it and ends ready to release. */
  lemma {:induction false} CleaningCompletes(s: State, p: string, key: string) returns (actions: seq<Action>)
    requires p in s.policies && s.policies[p].pass.Cleaning? && !s.policies[p].pass.failed
    requires CleanupKey(s.policies[p], s.policies[p].pass.read) == Some(key)
    requires forall n :: n in s.policies[p].pass.todo ==> n in s.nodes
    ensures OwnSteps(actions, p)
    ensures var t := s.policies[p];
            Run(s, actions).policies == s.policies[p := t.(pass := Releasing(t.pass.read))]
    ensures forall n :: Carries(Run(s, actions).nodes, n, key) ==>
              Carries(s.nodes, n, key) && n !in s.policies[p].pass.todo
    decreases |s.policies[p].pass.todo|
  {
    var a := CleanTaint(p, Acked);
    RunOne(s, a);
    if s.policies[p].pass.todo == [] {
      actions := [a];
    } else {
      var s' := Step(s, a);
      forall n ensures Carries(s'.nodes, n, key) ==> Carries(s.nodes, n, key) && n != s.policies[p].pass.todo[0] {
        OneClean(s, p, key, n);
      }
      OneClean(s, p, key, "");
      var rest := CleaningCompletes(s', p, key);
      actions := [a] + rest;
      RunConcat(s, [a], rest);
    }
  }

  // ----- how a cleanup ends

  /** The policy's clean steps with these replies, one after the other. */
  function Cleans(p: string, replies: seq<Reply>): seq<Action>
  {
    seq(|replies|, i requires 0 <= i < |replies| => CleanTaint(p, replies[i]))
  }

  /** Some call of the cleanup reported an error: it was refused, its reply was lost, or its node is gone. */
  predicate SomeCleanFailed(nodes: map<string, Node>, todo: seq<string>, replies: seq<Reply>)
    requires |todo| == |replies|
  {
    exists i :: 0 <= i < |todo| && (replies[i] != Acked || todo[i] !in nodes)
  }

  lemma OneCleanStep(s: State, p: string, read: nat, todo: seq<string>, failed: bool, reply: Reply)
    requires p in s.policies && s.policies[p].pass == Cleaning(read, todo, failed) && todo != []
    ensures
      var s' := Step(s, CleanTaint(p, reply));
      && s'.nodes.Keys == s.nodes.Keys && p in s'.policies
      && s'.policies[p].pass == Cleaning(read, todo[1..], failed || reply != Acked || todo[0] !in s.nodes)
  {
  }

  lemma FirstClean(s: State, p: string, replies: seq<Reply>)
    requires replies != []
    ensures Run(s, Cleans(p, replies)) == Run(Step(s, CleanTaint(p, replies[0])), Cleans(p, replies[1..]))
  {
    var first, rest := CleanTaint(p, replies[0]), Cleans(p, replies[1..]);
    assert Cleans(p, replies) == [first] + rest;
    RunConcat(s, [first], rest);
    RunOne(s, first);
  }

  lemma FirstCleanFailed(nodes: map<string, Node>, after: map<string, Node>, todo: seq<string>, replies: seq<Reply>)
    requires |todo| == |replies| && todo != [] && after.Keys == nodes.Keys
    ensures SomeCleanFailed(nodes, todo, replies) <==>
              replies[0] != Acked || todo[0] !in nodes || SomeCleanFailed(after, todo[1..], replies[1..])
  {
    assert forall i :: 0 < i < |todo| ==> todo[i] == todo[1..][i - 1] && replies[i] == replies[1..][i - 1];
  }

  lemma {:induction false} CleansRun(s: State, p: string, read: nat, todo: seq<string>, failed: bool,
                                     replies: seq<Reply>)
    requires p in s.policies && s.policies[p].pass == Cleaning(read, todo, failed) && |replies| == |todo|
    ensures
      var s' := Run(s, Cleans(p, replies));
      && p in s'.policies
      && s'.policies[p].pass == Cleaning(read, [], failed || SomeCleanFailed(s.nodes, todo, replies))
    decreases |todo|
  {
    if todo != [] {
      var s1 := Step(s, CleanTaint(p, replies[0]));
      OneCleanStep(s, p, read, todo, failed, replies[0]);
      CleansRun(s1, p, read, todo[1..], failed || replies[0] != Acked || todo[0] !in s.nodes, replies[1..]);
      FirstClean(s, p, replies);
      FirstCleanFailed(s.nodes, s1.nodes, todo, replies);
    }
  }

  /** A cleanup goes on to release the finalizer exactly if every call was acknowledged; otherwise it is retried. */
  lemma CleanupReleasesExactly(s: State, p: string, read: nat, todo: seq<string>, replies: seq<Reply>, last: Reply)
    requires p in s.policies && s.policies[p].pass == Cleaning(read, todo, false) && |replies| == |todo|
    ensures
      var s' := Run(s, Cleans(p, replies) + [CleanTaint(p, last)]);
      && p in s'.policies
      && s'.policies[p].pass == if SomeCleanFailed(s.nodes, todo, replies) then Idle else Releasing(read)
  {
    var failed := SomeCleanFailed(s.nodes, todo, replies);
    CleansRun(s, p, read, todo, false, replies);
    RunOneMore(s, Cleans(p, replies), CleanTaint(p, last));
    LastClean(Run(s, Cleans(p, replies)), p, read, failed, last);
  }

  lemma LastClean(s: State, p: string, read: nat, failed: bool, last: Reply)
    requires p in s.policies && s.policies[p].pass == Cleaning(read, [], failed)
    ensures var s' := Step(s, CleanTaint(p, last));
            p in s'.policies && s'.policies[p].pass == if failed then Idle else Releasing(read)
  {
  }

  /** The first two steps: start on the deletion and list every carrier. */
  lemma DeletionStarts(s: State, p: string, key: string, order: seq<string>) returns (s2: State)
    requires p in s.policies && s.policies[p].pass.Idle? && s.policies[p].cache == |s.policies[p].history|
    requires Ending(s.policies[p].latest) && HoldsKey(s.policies[p].latest, key)
    requires forall n :: n in s.nodes ==> n in order
    ensures s2 == Run(s, [Start(p)] + [ListForCleanup(p, order)])
    ensures s2 == SetPass(s, p, Cleaning(s.policies[p].cache, CarriersIn(s.nodes, order, key), false))
  {
    var r := s.policies[p].cache;
    RunOne(s, Start(p));
    var s1 := Step(s, Start(p));
    assert s1 == SetPass(s, p, Listing(r));
    RunOneMore(s, [Start(p)], ListForCleanup(p, order));
    s2 := Step(s1, ListForCleanup(p, order));
  }

  /**
   From any idle state in which the cache shows the stored deletion, the policy's own steps, without
   interference, lead to a state where the object is gone and no node carries its key.
   */
  lemma DeletionCompletes(s: State, p: string, key: string, order: seq<string>) returns (actions: seq<Action>)
    requires p in s.policies && s.policies[p].pass.Idle? && s.policies[p].cache == |s.policies[p].history|
    requires Ending(s.policies[p].latest) && HoldsKey(s.policies[p].latest, key)
    requires forall n :: n in s.nodes ==> n in order
    ensures OwnSteps(actions, p)
    ensures p in Run(s, actions).policies && Run(s, actions).policies[p].latest.Absent?
    ensures forall n :: !Carries(Run(s, actions).nodes, n, key)
  {
    var before := [Start(p)] + [ListForCleanup(p, order)];
    var s2 := DeletionStarts(s, p, key, order);
    forall n ensures n in CarriersIn(s.nodes, order, key) <==> n in order && Carries(s.nodes, n, key) {
      CarriersInMember(s.nodes, order, key, n);
    }
    var cleaning := CleaningCompletes(s2, p, key);
    RunConcat(s, before, cleaning);
    RunOneMore(s, before + cleaning, ReleaseFinalizer(p, Acked));
    actions := before + cleaning + [ReleaseFinalizer(p, Acked)];
  }
}
