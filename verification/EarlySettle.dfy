/**
 `_settled_green`: a gate that is green on one read with every gating check latched
 `sat`, order checks excluded, stays green on every later complete read that has the
 same events and more, in whatever timestamp order the new ones fall.
 */
module EarlySettle {
  import opened Multisets
  import opened Options
  import opened Events
  import opened Rules
  import opened Monitors
  import opened LiveBank
  import opened GateKernel
  import opened Ltl3

  predicate SettledGreen(g: GateResult) {
    && g.ok
    && !g.signatureEnforced
    && forall i :: 0 <= i < |g.checks| && g.checks[i].Gating() ==>
         g.checks[i].verdict == Some(Sat) && !g.checks[i].mustOrder
  }

  // Counting does not depend on order -------------------------------------------

  lemma {:induction false} MatchedSplit(m: Matcher, s: seq<Event>, k: nat)
    requires k < |s|
    ensures Matched(m, s) == Matched(m, Without(s, k)) + if m(s[k]) then 1 else 0
  {
    assert s == s[..k] + ([s[k]] + s[k + 1..]);
    MatchedExtends(m, s[..k], [s[k]] + s[k + 1..]);
    MatchedExtends(m, [s[k]], s[k + 1..]);
    MatchedExtends(m, s[..k], s[k + 1..]);
    assert Matched(m, [s[k]]) == if m(s[k]) then 1 else 0 by { assert [s[k]][..0] == []; }
  }

  // More events, however arranged, match at least as often.
  lemma {:induction false} MatchedMonotone(m: Matcher, s: seq<Event>, t: seq<Event>)
    requires multiset(s) <= multiset(t)
    ensures Matched(m, s) <= Matched(m, t)
  {
    if s != [] {
      var last := |s| - 1;
      assert s == s[..last] + [s[last]];
      assert s[last] in multiset(t);
      var k :| 0 <= k < |t| && t[k] == s[last];
      WithoutOne(t, k);
      CancelOne(multiset(s[..last]), multiset(Without(t, k)), s[last]);
      MatchedMonotone(m, s[..last], Without(t, k));
      MatchedSplit(m, t, k);
    }
  }

  lemma HitMonotone(m: Matcher, s: seq<Event>, t: seq<Event>)
    requires multiset(s) <= multiset(t) && Hit(m, s)
    ensures Hit(m, t)
  {
    var k :| 0 <= k < |s| && m(s[k]);
    assert s[k] in multiset(s) && s[k] in multiset(t);
    var j :| 0 <= j < |t| && t[j] == s[k];
  }

  // Only lower-bound counts and presence ever latch `sat` outside order rules, and both
  // survive any enlargement of the multiset of events.
  lemma SatSurvivesMoreEvents(r: Rule, s: seq<Event>, t: seq<Event>)
    requires !r.Order? && Decide(r, s) == Sat && multiset(s) <= multiset(t)
    ensures Holds(r, t)
  {
    match r
    case Count(m, op, want) =>
      MatchedMonotone(m, s, t);
    case Present(ms) =>
      forall i | 0 <= i < |ms| ensures Hit(ms[i], t) { HitMonotone(ms[i], s, t); }
  }

  // The gate ----------------------------------------------------------------------

  // A later read of a store that only grows.
  ghost predicate Grows(earlier: Read, later: Read) {
    && later.reachable && later.complete
    && multiset(earlier.events) <= multiset(later.events)
  }

  lemma SatCheckStillPasses(rule: GateRule, index: nat, earlier: Read, later: Read)
    requires Grows(earlier, later)
    requires CheckOf(rule, index, earlier).verdict == Some(Sat) && !CheckOf(rule, index, earlier).mustOrder
    ensures CheckOf(rule, index, later).passed
  {
    var r := rule.kind.rule;
    var s := StreamSorted(earlier.events);
    LatchIsDecision(r, s, UpTo(|s|));
    SatSurvivesMoreEvents(r, s, StreamSorted(later.events));
  }

  // What gates, and with which weight, is fixed by the spec.
  lemma GatingIsFixed(rule: GateRule, index: nat, a: Read, b: Read)
    ensures var c, d := CheckOf(rule, index, a), CheckOf(rule, index, b);
      c.Gating() == d.Gating() && c.weight == d.weight
  {
  }

  lemma SatIsNotCorroborated(rule: GateRule, index: nat, read: Read)
    requires CheckOf(rule, index, read).verdict.Some?
    ensures !CheckOf(rule, index, read).corroborated
  {
  }

  lemma {:induction false} TotalIsFixed(cs: seq<GateCheck>, ds: seq<GateCheck>)
    requires |cs| == |ds|
    requires forall i :: 0 <= i < |cs| ==> cs[i].Gating() == ds[i].Gating() && cs[i].weight == ds[i].weight
    ensures TotalWeight(cs) == TotalWeight(ds)
  {
    if cs != [] { TotalIsFixed(cs[..|cs| - 1], ds[..|ds| - 1]); }
  }

  lemma {:induction false} AllPassedMeansFullWeight(cs: seq<GateCheck>)
    requires forall i :: 0 <= i < |cs| && cs[i].Gating() ==> cs[i].passed
    ensures PassedWeight(cs) == TotalWeight(cs)
  {
    if cs != [] { AllPassedMeansFullWeight(cs[..|cs| - 1]); }
  }

  // Both outcomes, plain and weighted, are met when every gating check passes.
  lemma AllPassedMeetsRequirement(cs: seq<GateCheck>, ds: seq<GateCheck>, threshold: Option<real>)
    requires |cs| == |ds| && RequiredOutcome(cs, threshold).Some?
    requires forall i :: 0 <= i < |cs| ==> cs[i].Gating() == ds[i].Gating() && cs[i].weight == ds[i].weight
    requires forall i :: 0 <= i < |ds| && ds[i].Gating() ==> ds[i].passed
    ensures RequiredOutcome(ds, threshold) == Some(true)
  {
    TotalIsFixed(cs, ds);
    AllPassedMeansFullWeight(ds);
    hide TotalWeight, PassedWeight;
    if threshold.Some? { WholeQuotient(TotalWeight(ds)); }
  }

  lemma WholeQuotient(x: real)
    requires x > 0.0
    ensures x / x == 1.0
  {
  }

  // The early settle is safe.
  lemma SettledGreenIsIrrevocable(spec: Spec, earlier: Read, later: Read)
    requires Judge(spec, earlier).Some? && SettledGreen(Judge(spec, earlier).value)
    requires Grows(earlier, later)
    ensures Judge(spec, later).Some? && Judge(spec, later).value.ok
  {
    hide CheckOf;
    var cs, ds := Checks(spec.rules, earlier), Checks(spec.rules, later);
    assert Judge(spec, earlier).value.checks == cs;
    forall i | 0 <= i < |cs|
      ensures cs[i].Gating() == ds[i].Gating() && cs[i].weight == ds[i].weight
      ensures ds[i].Gating() ==> ds[i].passed && !cs[i].corroborated
    {
      GatingIsFixed(spec.rules[i], i, earlier, later);
      if ds[i].Gating() {
        SatCheckStillPasses(spec.rules[i], i, earlier, later);
        SatIsNotCorroborated(spec.rules[i], i, earlier);
      }
    }
    AllPassedMeetsRequirement(cs, ds, spec.threshold);
    assert !Corroborated(cs);
    assert AssertsAnything(ds) by {
      var i :| 0 <= i < |cs| && cs[i].Gating();
      assert ds[i].Gating();
    }
  }
}
