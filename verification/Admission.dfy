/** The cross-object admission rule: a taint key belongs to at most one stored policy. */
module Admission {
  import opened Domain

  datatype NamedPolicy = NamedPolicy(name: string, spec: PolicySpec)

  datatype Verdict = Admitted | Rejected(other: string) | ListFailed

  predicate SameKey(a: PolicySpec, b: PolicySpec)
  {
    a.taint.Some? && b.taint.Some? && a.taint.value.key == b.taint.value.key
  }

  predicate Collides(policy: NamedPolicy, other: NamedPolicy)
  {
    other.name != policy.name && SameKey(policy.spec, other.spec)
  }

  /** Scan the stored policies for another one that already declares the key. */
  method ValidateUniqueTaintKey(policy: NamedPolicy, stored: seq<NamedPolicy>, listRefused: bool) returns (v: Verdict)
    ensures policy.spec.taint.None? ==> v == Admitted
    ensures policy.spec.taint.Some? && listRefused ==> v == ListFailed
    ensures policy.spec.taint.Some? && !listRefused ==>
      (v == Admitted <==>
        forall i :: 0 <= i < |stored| && stored[i].name != policy.name && stored[i].spec.taint.Some? ==>
          stored[i].spec.taint.value.key != policy.spec.taint.value.key)
    ensures v.Rejected? ==>
      exists i :: 0 <= i < |stored| && v.other == stored[i].name && v.other != policy.name
        && stored[i].spec.taint.Some? && stored[i].spec.taint.value.key == policy.spec.taint.value.key
    ensures policy.spec.taint.None? || !listRefused ==>
      (v == Admitted <==> forall i :: 0 <= i < |stored| ==> !Collides(policy, stored[i]))
  {
    if policy.spec.taint.None? {
      return Admitted;
    }
    if listRefused {
      return ListFailed;
    }
    var key := policy.spec.taint.value.key;
    for i := 0 to |stored|
      invariant forall j :: 0 <= j < i ==> !Collides(policy, stored[j])
    {
      if stored[i].name == policy.name {
        continue;
      }
      if stored[i].spec.taint.Some? && stored[i].spec.taint.value.key == key {
        return Rejected(stored[i].name);
      }
    }
    return Admitted;
  }
}
