/** The gate's verdict in plain terms: from the spec's rules and the events read. */
module GateMeaning {
  import opened Options
  import opened Events
  import opened Rules
  import opened Monitors
  import opened LiveBank
  import opened GateKernel

  // The order of a read ---------------------------------------------------------------------

  function SequenceOf(e: Event): int {
    if e.sequence.Some? then e.sequence.value else 0
  }

  // Timestamped events first, by timestamp and then sequence.
  ghost predicate ComesNoLater(e: Event, f: Event) {
    || (f.timestamp.None? && (e.timestamp.Some? || SequenceOf(e) <= SequenceOf(f)))
    || (e.timestamp.Some? && f.timestamp.Some?
        && (e.timestamp.value < f.timestamp.value
            || (e.timestamp == f.timestamp && SequenceOf(e) <= SequenceOf(f))))
  }

  ghost predicate SameKey(e: Event, f: Event) {
    e.timestamp == f.timestamp && SequenceOf(e) == SequenceOf(f)
  }

  lemma KeyLeqMeaning(e: Event, f: Event)
    ensures KeyLeq(e, f) <==> ComesNoLater(e, f)
    ensures KeyLeq(e, f) && KeyLeq(f, e) <==> SameKey(e, f)
  {
  }

  // The sorted read: the events of the read, in that order.
  lemma SortedReadIsOrdered(s: seq<Event>, i: int, j: int)
    requires 0 <= i < j < |StreamSorted(s)|
    ensures ComesNoLater(StreamSorted(s)[i], StreamSorted(s)[j])
  {
    StreamSortedIsInOrder(s);
    hide StreamSorted;
    KeyLeqMeaning(StreamSorted(s)[i], StreamSorted(s)[j]);
  }

  // Events of one key keep the order they were read in.
  lemma {:induction false} StreamSortedIsStable(s: seq<Event>, e: Event)
    ensures Filtered(f => SameKey(e, f), StreamSorted(s)) == Filtered(f => SameKey(e, f), s)
  {
    if s != [] {
      var last := |s| - 1;
      StreamSortedIsStable(s[..last], e);
      StreamSortedIsInOrder(s[..last]);
      InsertIsStable(s[last], StreamSorted(s[..last]), e);
    }
  }

  lemma {:induction false} InsertIsStable(x: Event, s: seq<Event>, e: Event)
    ensures Filtered(f => SameKey(e, f), InsertByKey(x, s))
         == Filtered(f => SameKey(e, f), s) + if SameKey(e, x) then [x] else []
  {
    var same := f => SameKey(e, f);
    if s == [] || KeyLeq(s[|s| - 1], x) {
      FilteredStep(same, s, x);
    } else {
      var front, y := s[..|s| - 1], s[|s| - 1];
      assert s == front + [y];
      InsertStep(x, front, y);
      InsertIsStable(x, front, e);
      LaterIsNotSame(x, y, e);
      hide InsertByKey, Filtered, SameKey, KeyLeq;
      FilteredStep(same, InsertByKey(x, front), y);
      FilteredStep(same, front, y);
    }
  }

  lemma InsertStep(x: Event, front: seq<Event>, y: Event)
    requires !KeyLeq(y, x)
    ensures InsertByKey(x, front + [y]) == InsertByKey(x, front) + [y]
  {
    hide KeyLeq;
    assert (front + [y])[..|front|] == front;
  }

  lemma LaterIsNotSame(x: Event, y: Event, e: Event)
    requires !KeyLeq(y, x)
    ensures !(SameKey(e, x) && SameKey(e, y))
  {
  }

  // Which rules decide --------------------------------------------------------------------------

  // The rule counts: it is neither optional nor pending, and not one that cannot fail.
  predicate Gates(g: GateRule) {
    !g.optional && !g.pending && (g.kind.Kernel? ==> !Tautological(g.kind.rule))
  }

  // Its check passes: the rule holds of the sorted read, or its own handler says so.
  predicate Met(spec: Spec, read: Read, i: int)
    requires 0 <= i < |spec.rules|
  {
    match spec.rules[i].kind
    case Kernel(r) => Holds(r, StreamSorted(read.events))
    case Custom => read.observed(i).passed
  }

  ghost predicate SomeRuleGates(spec: Spec) {
    exists i :: 0 <= i < |spec.rules| && Gates(spec.rules[i])
  }

  // A gating rule with a handler of its own passed and was corroborated.
  ghost predicate Vouched(spec: Spec, read: Read) {
    exists i :: 0 <= i < |spec.rules| && Gates(spec.rules[i]) && spec.rules[i].kind.Custom?
                && read.observed(i).passed && read.observed(i).corroborated
  }

  // What the policy asks besides.
  ghost predicate PolicyMet(spec: Spec, read: Read) {
    && (spec.policy.requireCorroboration ==> Vouched(spec, read))
    && (spec.policy.requireSignature ==> spec.authentic(read.events))
    && (spec.policy.requireIndependentStore && spec.emitIndependent == Some(false) ==> Vouched(spec, read))
  }

  // Weights -----------------------------------------------------------------------------------

  // The weights of the chosen among the first n rules, added up.
  ghost function WeightUpTo(spec: Spec, chosen: set<int>, n: nat): real
    requires n <= |spec.rules|
  {
    if n == 0 then 0.0
    else WeightUpTo(spec, chosen, n - 1) + if n - 1 in chosen then spec.rules[n - 1].weight else 0.0
  }

  ghost function WeightOf(spec: Spec, chosen: set<int>): real {
    WeightUpTo(spec, chosen, |spec.rules|)
  }

  ghost function Gating(spec: Spec): set<int> {
    set i | 0 <= i < |spec.rules| && Gates(spec.rules[i])
  }

  ghost function GatingMet(spec: Spec, read: Read): set<int> {
    set i | 0 <= i < |spec.rules| && Gates(spec.rules[i]) && Met(spec, read, i)
  }

  // What the spec's threshold asks: that all gating rules are met, or enough of their weight.
  ghost predicate RequirementMet(spec: Spec, read: Read) {
    match spec.threshold
    case None => GatingMet(spec, read) == Gating(spec)
    case Some(t) => WeightOf(spec, GatingMet(spec, read)) >= t * WeightOf(spec, Gating(spec))
  }

  // The checks, seen from the spec ----------------------------------------------------------

  // A check carries its rule's weight and gates as the rule does; a rule of the kernel passes
  // only on a whole read, one with a handler as the handler says.
  lemma CheckMeaning(spec: Spec, read: Read, i: int)
    requires 0 <= i < |spec.rules|
    ensures var c := CheckOf(spec.rules[i], i, read);
      && c.Gating() == Gates(spec.rules[i]) && c.weight == spec.rules[i].weight
      && (c.passed <==> Met(spec, read, i) && (spec.rules[i].kind.Kernel? ==> read.reachable && read.complete))
      && (c.corroborated <==> spec.rules[i].kind.Custom? && read.observed(i).corroborated)
      && (c.probeReachable <==> spec.rules[i].kind.Kernel? || read.observed(i).probeReachable)
  {
    hide StreamSorted, Holds, LatchAfter, UpTo, Tautological;
  }

  lemma TotalStep(cs: seq<GateCheck>, n: nat)
    requires 0 < n <= |cs|
    ensures TotalWeight(cs[..n]) == TotalWeight(cs[..n - 1]) + if cs[n - 1].Gating() then cs[n - 1].weight else 0.0
    ensures PassedWeight(cs[..n]) ==
      PassedWeight(cs[..n - 1]) + if cs[n - 1].Gating() && cs[n - 1].passed then cs[n - 1].weight else 0.0
  {
    assert cs[..n][..n - 1] == cs[..n - 1];
  }

  lemma {:induction false} TotalIsWeight(spec: Spec, read: Read, n: nat)
    requires n <= |spec.rules|
    ensures TotalWeight(Checks(spec.rules, read)[..n]) == WeightUpTo(spec, Gating(spec), n)
  {
    if n > 0 {
      TotalIsWeight(spec, read, n - 1);
      TotalStep(Checks(spec.rules, read), n);
      CheckMeaning(spec, read, n - 1);
      hide CheckOf, Gates, TotalWeight;
    }
  }

  lemma {:induction false} PassedIsWeight(spec: Spec, read: Read, n: nat)
    requires n <= |spec.rules| && read.reachable && read.complete
    ensures PassedWeight(Checks(spec.rules, read)[..n]) == WeightUpTo(spec, GatingMet(spec, read), n)
  {
    if n > 0 {
      PassedIsWeight(spec, read, n - 1);
      TotalStep(Checks(spec.rules, read), n);
      CheckMeaning(spec, read, n - 1);
      hide CheckOf, Gates, Met, PassedWeight;
    }
  }

  lemma WeightsMeaning(spec: Spec, read: Read)
    ensures var cs := Checks(spec.rules, read);
      && TotalWeight(cs) == WeightOf(spec, Gating(spec))
      && (read.reachable && read.complete ==> PassedWeight(cs) == WeightOf(spec, GatingMet(spec, read)))
  {
    hide CheckOf, Gates, Met, TotalWeight, PassedWeight, WeightUpTo;
    var cs, n := Checks(spec.rules, read), |spec.rules|;
    assert cs[..n] == cs;
    TotalIsWeight(spec, read, n);
    if read.reachable && read.complete { PassedIsWeight(spec, read, n); }
  }

  // The verdict -------------------------------------------------------------------------------

  // A rule the gate cannot evaluate: a negative weight, a sequence that names an event twice,
  // or a duration without a field.
  ghost predicate Unusable(g: GateRule) {
    || g.weight < 0.0
    || (g.kind.Kernel? && match g.kind.rule
                          case Order(names, _, _) => exists i, j :: 0 <= i < j < |names| && names[i] == names[j]
                          case Duration(_, field, _, _) => |field| == 0
                          case _ => false)
  }

  // There is a verdict unless a rule is unusable, or the threshold is outside (0, 1] or has
  // no weight to measure against.
  lemma JudgeDefinedIff(spec: Spec, read: Read)
    ensures Judge(spec, read).Some? <==>
      && (forall i :: 0 <= i < |spec.rules| ==> !Unusable(spec.rules[i]))
      && (spec.threshold.Some? ==>
            0.0 < spec.threshold.value <= 1.0 && WeightOf(spec, Gating(spec)) > 0.0)
  {
    WeightsMeaning(spec, read);
    UsableMeansWellFormed(spec);
    hide CheckOf, TotalWeight, PassedWeight, WeightOf, WellFormed, Unusable;
  }

  lemma UsableMeansWellFormed(spec: Spec)
    ensures WellFormed(spec) <==> forall i :: 0 <= i < |spec.rules| ==> !Unusable(spec.rules[i])
  {
  }

  // The gate is ok exactly when the read is whole, some rule gates, the gating rules are met
  // as the threshold asks, and the policy is satisfied.
  lemma JudgeOkIff(spec: Spec, read: Read)
    requires Judge(spec, read).Some?
    ensures Judge(spec, read).value.ok <==>
      && read.reachable && read.complete
      && SomeRuleGates(spec) && RequirementMet(spec, read) && PolicyMet(spec, read)
  {
    var cs := Checks(spec.rules, read);
    forall i | 0 <= i < |cs|
      ensures cs[i].Gating() == Gates(spec.rules[i])
      ensures read.reachable && read.complete ==> cs[i].passed == Met(spec, read, i)
      ensures cs[i].corroborated <==> spec.rules[i].kind.Custom? && read.observed(i).corroborated
    {
      CheckMeaning(spec, read, i);
    }
    hide CheckOf, Gates;
    if read.reachable && read.complete {
      RequirementMeaning(spec, read);
      VouchedMeaning(spec, read, cs);
    }
    assert AssertsAnything(cs) <==> SomeRuleGates(spec) by {
      if AssertsAnything(cs) {
        var i :| 0 <= i < |cs| && cs[i].Gating();
        assert Gates(spec.rules[i]);
      }
      if SomeRuleGates(spec) {
        var i :| 0 <= i < |spec.rules| && Gates(spec.rules[i]);
        assert cs[i].Gating();
      }
    }
    hide RequirementMet, RequiredOutcome, Corroborated, Vouched, AssertsAnything, SomeRuleGates;
  }

  lemma VouchedMeaning(spec: Spec, read: Read, cs: seq<GateCheck>)
    requires cs == Checks(spec.rules, read) && read.reachable && read.complete
    ensures Corroborated(cs) <==> Vouched(spec, read)
  {
    forall i | 0 <= i < |cs|
      ensures cs[i].Gating() && cs[i].corroborated && cs[i].passed <==>
        Gates(spec.rules[i]) && spec.rules[i].kind.Custom? && read.observed(i).passed && read.observed(i).corroborated
    {
      CheckMeaning(spec, read, i);
    }
    hide CheckOf, Gates;
    if Corroborated(cs) {
      var i :| 0 <= i < |cs| && cs[i].Gating() && cs[i].corroborated && cs[i].passed;
      assert Gates(spec.rules[i]);
    }
    if Vouched(spec, read) {
      var i :| 0 <= i < |spec.rules| && Gates(spec.rules[i]) && spec.rules[i].kind.Custom?
               && read.observed(i).passed && read.observed(i).corroborated;
      assert cs[i].Gating();
    }
  }

  lemma RequirementMeaning(spec: Spec, read: Read)
    requires RequiredOutcome(Checks(spec.rules, read), spec.threshold).Some? && read.reachable && read.complete
    ensures RequiredOutcome(Checks(spec.rules, read), spec.threshold) == Some(RequirementMet(spec, read))
  {
    hide CheckOf, Checks, TotalWeight, PassedWeight, WeightOf, Gating, GatingMet;
    if spec.threshold.Some? {
      hide RequiredOutcome;
      WeightsMeaning(spec, read);
      WeightedOutcome(Checks(spec.rules, read), spec.threshold.value);
    } else {
      AllMetMeaning(spec, read);
    }
  }

  lemma AllMetMeaning(spec: Spec, read: Read)
    requires read.reachable && read.complete
    ensures var cs := Checks(spec.rules, read);
      (forall i :: 0 <= i < |cs| && cs[i].Gating() ==> cs[i].passed) <==> GatingMet(spec, read) == Gating(spec)
  {
    var cs := Checks(spec.rules, read);
    forall i | 0 <= i < |cs|
      ensures cs[i].Gating() && !cs[i].passed <==> i in Gating(spec) && i !in GatingMet(spec, read)
    {
      CheckMeaning(spec, read, i);
    }
    hide CheckOf, Gates, Met;
    if forall i :: 0 <= i < |cs| && cs[i].Gating() ==> cs[i].passed {
      assert forall i :: i in Gating(spec) <==> i in GatingMet(spec, read);
    } else {
      var i :| 0 <= i < |cs| && cs[i].Gating() && !cs[i].passed;
      assert i in Gating(spec) && i !in GatingMet(spec, read);
    }
  }

  lemma WeightedOutcome(cs: seq<GateCheck>, t: real)
    requires RequiredOutcome(cs, Some(t)).Some?
    ensures RequiredOutcome(cs, Some(t)) == Some(PassedWeight(cs) >= t * TotalWeight(cs))
  {
    hide TotalWeight, PassedWeight;
    QuotientAtLeast(PassedWeight(cs), TotalWeight(cs), t);
  }

  lemma QuotientAtLeast(x: real, y: real, t: real)
    requires y > 0.0
    ensures x / y >= t <==> x >= t * y
  {
    assert x == (x / y) * y;
  }
}
