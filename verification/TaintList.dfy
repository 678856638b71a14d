/** The two edits the operator makes to a node's taint list, and what they leave alone. */
module TaintList {
  import opened Domain

  datatype TaintOp = Ensure(taint: Taint) | Remove(key: string)
  {
    function Key(): string
    {
      if Ensure? then taint.key else key
    }
  }

  /** The taints with another key, in order. */
  function Others(taints: seq<Taint>, key: string): (r: seq<Taint>)
    ensures |r| <= |taints|
  {
    if taints == [] then []
    else
      var last := taints[|taints| - 1];
      var rest := Others(taints[..|taints| - 1], key);
      if last.key != key then rest + [last] else rest
  }

  /** The taints with this key, in order. */
  function Ours(taints: seq<Taint>, key: string): seq<Taint>
  {
    if taints == [] then []
    else
      var last := taints[|taints| - 1];
      var rest := Ours(taints[..|taints| - 1], key);
      if last.key == key then rest + [last] else rest
  }

  /** The updated list, or None when there is nothing to do. */
  function Mutate(op: TaintOp, taints: seq<Taint>): Option<seq<Taint>>
  {
    match op
    case Ensure(t) => if CarriesKey(taints, t.key) then None else Some(taints + [t])
    case Remove(k) => if CarriesKey(taints, k) then Some(Others(taints, k)) else None
  }

  method EnsureMutation(taints: seq<Taint>, t: Taint) returns (updated: Option<seq<Taint>>)
    ensures updated == Mutate(Ensure(t), taints)
  {
    for i := 0 to |taints|
      invariant forall j :: 0 <= j < i ==> taints[j].key != t.key
    {
      if taints[i].key == t.key {
        return None;
      }
    }
    return Some(taints + [t]);
  }

  method RemoveMutation(taints: seq<Taint>, key: string) returns (updated: Option<seq<Taint>>)
    ensures updated == Mutate(Remove(key), taints)
  {
    var kept: seq<Taint> := [];
    for i := 0 to |taints|
      invariant kept == Others(taints[..i], key)
    {
      assert taints[..i + 1][..i] == taints[..i];
      if taints[i].key != key {
        kept := kept + [taints[i]];
      }
    }
    assert taints[..|taints|] == taints;
    OthersShrinks(taints, key);
    if |kept| == |taints| {
      return None;
    }
    return Some(kept);
  }

  lemma {:induction false} OthersShrinks(taints: seq<Taint>, key: string)
    ensures |Others(taints, key)| == |taints| <==> !CarriesKey(taints, key)
    ensures !CarriesKey(taints, key) ==> Others(taints, key) == taints && Ours(taints, key) == []
    ensures Ours(taints, key) == [] ==> !CarriesKey(taints, key)
    ensures !CarriesKey(Others(taints, key), key)
  {
    if taints != [] {
      var front, last := taints[..|taints| - 1], taints[|taints| - 1];
      OthersShrinks(front, key);
      assert taints == front + [last];
      assert forall i :: 0 <= i < |front| ==> front[i] == taints[i];
    }
  }

  lemma {:induction false} OursOfOthers(taints: seq<Taint>, key: string, k: string)
    ensures Ours(Others(taints, key), k) == if k == key then [] else Ours(taints, k)
  {
    if taints != [] {
      var front, last := taints[..|taints| - 1], taints[|taints| - 1];
      OursOfOthers(front, key, k);
      AppendTaint(Others(front, key), last, k);
    }
  }

  lemma AppendTaint(taints: seq<Taint>, t: Taint, k: string)
    ensures Others(taints + [t], k) == if t.key != k then Others(taints, k) + [t] else Others(taints, k)
    ensures Ours(taints + [t], k) == if t.key == k then Ours(taints, k) + [t] else Ours(taints, k)
  {
    assert (taints + [t])[..|taints|] == taints;
  }

  lemma OthersAppend(taints: seq<Taint>, t: Taint, key: string)
    ensures Others(taints + [t], key) == Others(taints, key) + if t.key != key then [t] else []
  {
    AppendTaint(taints, t, key);
  }

  lemma Regroup(a: seq<Taint>, b: seq<Taint>, c: seq<Taint>)
    ensures a + (b + c) == a + b + c
  {
  }

  /** Taking a key out goes taint by taint: it keeps order and repetitions and touches nothing else. */
  lemma {:induction false} OthersConcat(a: seq<Taint>, b: seq<Taint>, key: string)
    ensures Others(a + b, key) == Others(a, key) + Others(b, key)
  {
    if b == [] {
      assert a + b == a;
    } else {
      var front, last := b[..|b| - 1], b[|b| - 1];
      OthersConcat(a, front, key);
      assert b == front + [last];
      Regroup(a, front, [last]);
      OthersAppend(a + front, last, key);
      OthersAppend(front, last, key);
      Regroup(Others(a, key), Others(front, key), if last.key != key then [last] else []);
    }
  }

  lemma OthersOfOne(t: Taint, key: string)
    ensures Others([t], key) == (if t.key == key then [] else [t]) && Ours([t], key) == if t.key == key then [t] else []
  {
    AppendTaint([], t, key);
    assert [] + [t] == [t];
  }

  /** An edit sets its own key's presence and preserves every other taint, in order. */
  lemma MutateEffect(op: TaintOp, taints: seq<Taint>, k: string)
    requires Mutate(op, taints).Some?
    ensures
      var u := Mutate(op, taints).value;
      && (CarriesKey(u, op.Key()) <==> op.Ensure?)
      && (CarriesKey(taints, op.Key()) <==> op.Remove?)
      && Others(u, op.Key()) == Others(taints, op.Key())
      && (k != op.Key() ==> Ours(u, k) == Ours(taints, k))
      && Mutate(op, u) == None
      && (op.Ensure? ==> u == taints + [op.taint])
      && (op.Remove? ==> u == Others(taints, op.key))
  {
    var u := Mutate(op, taints).value;
    if op.Ensure? {
      AppendTaint(taints, op.taint, k);
      AppendTaint(taints, op.taint, op.Key());
      assert u[|taints|].key == op.Key();
    } else {
      OursOfOthers(taints, op.key, k);
      OthersShrinks(taints, op.key);
      OthersShrinks(u, op.key);
    }
  }
}
