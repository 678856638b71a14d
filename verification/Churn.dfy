/** How often the operator can flip a node's taint, whatever the node's condition does. */
module Churn {
  import opened Domain
  import opened Remediation
  import opened DecisionLaws

  /** One entry of a condition's history, oldest first: a status change and the time it happened. */
  datatype Change = Change(at: int, status: string)

  /** What a detector reports at time t: the current status, dated by its last change. */
  function Reported(cs: seq<Change>, t: int): ConditionFact
  {
    if cs == [] then ConditionFact(STATUS_UNREPORTED, None)
    else
      var last := cs[|cs| - 1];
      if last.at <= t then ConditionFact(last.status, Some(last.at)) else Reported(cs[..|cs| - 1], t)
  }

  /** Two different reports have a status change after the earlier one between them. */
  lemma {:induction false} ChangeBetween(cs: seq<Change>, s: int, t: int)
    requires s <= t && Reported(cs, s).status != Reported(cs, t).status
    ensures Reported(cs, t).lastTransition.Some? && s < Reported(cs, t).lastTransition.value
  {
    if cs != [] && t < cs[|cs| - 1].at {
      ChangeBetween(cs[..|cs| - 1], s, t);
    }
  }

  /**
   One pass as it concerns node `x`: the facts it decided on were read at `seenAt`, the decision is taken at
   `now`, and `wroteAt` says when its write to `x` was committed, if it was.
   */
  datatype Pass = Pass(now: int, seenAt: int, nodes: seq<NodeFact>, wroteAt: Option<int>)

  /** How old the facts of a pass may be, and how long after its decision a write may take, retries included. */
  datatype Latency = Latency(lag: int, delay: int)

  /** The pass sees `x` in scope with the report of the time it looked; its view of the taint may be wrong. */
  predicate Faithful(p: Policy, cs: seq<Change>, x: string, late: Latency, pass: Pass)
  {
    && pass.now - late.lag <= pass.seenAt <= pass.now
    && (pass.wroteAt.Some? ==> pass.now <= pass.wroteAt.value <= pass.now + late.delay)
    && DistinctNames(pass.nodes)
    && exists i :: 0 <= i < |pass.nodes| && pass.nodes[i].name == x && InScope(p, pass.nodes[i])
         && pass.nodes[i].condition == Reported(cs, pass.seenAt)
  }

  predicate TaintAfter(p: Policy, x: string, tainted: bool, pass: Pass)
  {
    var d := DecisionFor(p, pass.nodes, pass.now);
    if pass.wroteAt.Some? && x in d.applyTaint then true
    else if pass.wroteAt.Some? && x in d.removeTaint then false
    else tainted
  }

  function EndOf(pass: Pass): int
  {
    if pass.wroteAt.Some? then pass.wroteAt.value else pass.now
  }

  /** The passes of one policy do not overlap. */
  predicate Run(p: Policy, cs: seq<Change>, x: string, tainted: bool, late: Latency, passes: seq<Pass>)
    decreases |passes|
  {
    passes == [] || (
      && Faithful(p, cs, x, late, passes[0])
      && (|passes| > 1 ==> EndOf(passes[0]) <= passes[1].now && passes[0].seenAt <= passes[1].seenAt)
      && Run(p, cs, x, TaintAfter(p, x, tainted, passes[0]), late, passes[1..]))
  }

  /** The passes of a run that changed the taint, and when the taint changed. */
  datatype Flip = Flip(now: int, seenAt: int, at: int, applied: bool)

  function FlipOf(pass: Pass, applied: bool): Flip
  {
    Flip(pass.now, pass.seenAt, EndOf(pass), applied)
  }

  function Flips(p: Policy, x: string, tainted: bool, passes: seq<Pass>): seq<Flip>
    decreases |passes|
  {
    if passes == [] then []
    else
      var after := TaintAfter(p, x, tainted, passes[0]);
      (if after != tainted then [FlipOf(passes[0], after)] else [])
        + Flips(p, x, after, passes[1..])
  }

  function WindowOf(p: Policy, f: Flip): int
  {
    if f.applied then p.debounceEnter else p.debounceExit
  }

  /** The report that justified a flip: the status it needs, stable for the whole window. */
  predicate Justified(p: Policy, cs: seq<Change>, late: Latency, f: Flip)
  {
    var c := Reported(cs, f.seenAt);
    && (c.status == p.conditionStatus <==> f.applied)
    && c.lastTransition.Some?
    && f.now - c.lastTransition.value >= WindowOf(p, f)
    && f.now - late.lag <= f.seenAt <= f.now <= f.at <= f.now + late.delay
  }

  predicate Succeeds(f: Flip, g: Flip)
  {
    f.applied != g.applied && f.at <= g.now && f.seenAt <= g.seenAt
  }

  lemma PassFlip(p: Policy, cs: seq<Change>, x: string, tainted: bool, late: Latency, pass: Pass)
    requires Faithful(p, cs, x, late, pass) && TaintAfter(p, x, tainted, pass) != tainted
    ensures Justified(p, cs, late, FlipOf(pass, !tainted))
  {
    var i :| 0 <= i < |pass.nodes| && pass.nodes[i].name == x && InScope(p, pass.nodes[i])
      && pass.nodes[i].condition == Reported(cs, pass.seenAt);
    ListsAreExact(p, pass.nodes, pass.now, i);
  }

  /** Justified flips, applies alternating with removes, the first one against `tainted` and not before this time. */
  predicate Alternates(p: Policy, cs: seq<Change>, late: Latency, tainted: bool, now: int, seenAt: int, fs: seq<Flip>)
  {
    && (forall i :: 0 <= i < |fs| ==> Justified(p, cs, late, fs[i]))
    && (forall i :: 0 <= i < |fs| - 1 ==> Succeeds(fs[i], fs[i + 1]))
    && (fs != [] ==> fs[0].applied != tainted && now <= fs[0].now && seenAt <= fs[0].seenAt)
  }

  lemma AlternatesCons(p: Policy, cs: seq<Change>, late: Latency, tainted: bool, f: Flip, fs: seq<Flip>)
    requires Justified(p, cs, late, f) && f.applied != tainted
    requires Alternates(p, cs, late, f.applied, f.at, f.seenAt, fs)
    ensures Alternates(p, cs, late, tainted, f.now, f.seenAt, [f] + fs)
  {
    var longer := [f] + fs;
    forall i | 0 <= i < |longer| ensures Justified(p, cs, late, longer[i]) {
      assert i > 0 ==> longer[i] == fs[i - 1];
    }
    forall i | 0 <= i < |longer| - 1 ensures Succeeds(longer[i], longer[i + 1]) {
      assert longer[i + 1] == fs[i];
      assert i > 0 ==> longer[i] == fs[i - 1];
    }
  }

  lemma AlternatesSince(p: Policy, cs: seq<Change>, late: Latency, tainted: bool, from: int, seenAt: int,
                        now: int, laterSeen: int, fs: seq<Flip>)
    requires from <= now && seenAt <= laterSeen && Alternates(p, cs, late, tainted, now, laterSeen, fs)
    ensures Alternates(p, cs, late, tainted, from, seenAt, fs)
  {
  }

  /** Every flip of a run is justified, and applies alternate with removes in time order. */
  lemma {:induction false} FlipsAlternate(p: Policy, cs: seq<Change>, x: string, tainted: bool,
                                          late: Latency, passes: seq<Pass>)
    requires passes != [] && Run(p, cs, x, tainted, late, passes)
    ensures Alternates(p, cs, late, tainted, passes[0].now, passes[0].seenAt, Flips(p, x, tainted, passes))
    decreases |passes|
  {
    var pass, after := passes[0], TaintAfter(p, x, tainted, passes[0]);
    var rest := Flips(p, x, after, passes[1..]);
    if |passes| > 1 {
      FlipsAlternate(p, cs, x, after, late, passes[1..]);
      AlternatesSince(p, cs, late, after, EndOf(pass), pass.seenAt, passes[1].now, passes[1].seenAt, rest);
    }
    if after != tainted {
      PassFlip(p, cs, x, tainted, late, pass);
      AlternatesCons(p, cs, late, tainted, FlipOf(pass, after), rest);
    } else {
      AlternatesSince(p, cs, late, after, pass.now, pass.seenAt, EndOf(pass), pass.seenAt, rest);
    }
  }

  /** Two successive decisions to flip are more than the later one's window apart, less the observation lag. */
  lemma Gap(p: Policy, cs: seq<Change>, late: Latency, f: Flip, g: Flip)
    requires Justified(p, cs, late, f) && Justified(p, cs, late, g) && Succeeds(f, g)
    ensures g.now - f.now > WindowOf(p, g) - late.lag
    ensures g.at - f.at > WindowOf(p, g) - late.lag - late.delay
  {
    ChangeBetween(cs, f.seenAt, g.seenAt);
  }

  lemma OnePairMore(gaps: nat, pair: int)
    requires gaps >= 2
    ensures gaps / 2 * pair == (gaps - 2) / 2 * pair + pair
  {
    assert gaps / 2 == (gaps - 2) / 2 + 1;
  }

  lemma {:induction false} Span(p: Policy, cs: seq<Change>, late: Latency, fs: seq<Flip>)
    requires fs != []
    requires forall i :: 0 <= i < |fs| ==> Justified(p, cs, late, fs[i])
    requires forall i :: 0 <= i < |fs| - 1 ==> Succeeds(fs[i], fs[i + 1])
    ensures fs[|fs| - 1].now - fs[0].now >= (|fs| - 1) / 2 * (p.debounceEnter + p.debounceExit - 2 * late.lag)
    decreases |fs|
  {
    var pair := p.debounceEnter + p.debounceExit - 2 * late.lag;
    if |fs| > 2 {
      TwoGaps(p, cs, late, fs[0], fs[1], fs[2]);
      var rest := fs[2..];
      Span(p, cs, late, rest);
      OnePairMore(|fs| - 1, pair);
    } else if |fs| == 2 {
      assert Succeeds(fs[0], fs[1]);
    }
  }

  lemma TwoGaps(p: Policy, cs: seq<Change>, late: Latency, f: Flip, g: Flip, h: Flip)
    requires Justified(p, cs, late, f) && Justified(p, cs, late, g) && Justified(p, cs, late, h)
    requires Succeeds(f, g) && Succeeds(g, h)
    ensures h.now - f.now >= p.debounceEnter + p.debounceExit - 2 * late.lag
  {
    Gap(p, cs, late, f, g);
    Gap(p, cs, late, g, h);
  }

  /**
   Bounded churn: over any run on a node that stays in scope, however its condition flaps, k + 1 changes of
   the taint take at least floor(k/2) full enter-plus-exit windows, and each successive pair is more than
   the later window apart. A pair loses the observation lag and the delay of the earlier write; the whole
   span loses the delay only once. Both are 0 for fresh observations and immediate writes.
   */
  lemma BoundedChurn(p: Policy, cs: seq<Change>, x: string, tainted: bool, late: Latency, passes: seq<Pass>)
    requires Run(p, cs, x, tainted, late, passes)
    ensures
      var fs := Flips(p, x, tainted, passes);
      && (fs != [] ==>
            fs[|fs| - 1].at - fs[0].at >=
              (|fs| - 1) / 2 * (p.debounceEnter + p.debounceExit - 2 * late.lag) - late.delay)
      && (forall i :: 0 <= i < |fs| - 1 ==>
            fs[i + 1].at - fs[i].at >
              (if fs[i].applied then p.debounceExit else p.debounceEnter) - late.lag - late.delay)
  {
    var fs := Flips(p, x, tainted, passes);
    if passes != [] {
      FlipsAlternate(p, cs, x, tainted, late, passes);
    }
    if fs != [] {
      Span(p, cs, late, fs);
    }
    forall i | 0 <= i < |fs| - 1
      ensures fs[i + 1].at - fs[i].at >
                (if fs[i].applied then p.debounceExit else p.debounceEnter) - late.lag - late.delay
    {
      assert Succeeds(fs[i], fs[i + 1]);
      Gap(p, cs, late, fs[i], fs[i + 1]);
    }
  }
}
