/** What a step answers, said of the definition, the snapshot, the event and the evaluator. */
module ReducerMeaning {
  import opened Options
  import opened Protocol
  import opened Reducer

  // The policy is the one the evaluator, the snapshot and the event were made under.
  ghost predicate SamePolicy(s: Snapshot, e: Event, ev: Evaluator) {
    && ev.version == ev.definition.evaluatorVersion
    && ev.policyDigest == PolicyDigest(ev.definition)
    && s.policyDigest == PolicyDigest(ev.definition)
    && e.policyDigest == PolicyDigest(ev.definition)
  }

  ghost predicate NewId(s: Snapshot, e: Event) {
    forall r :: r in s.history ==> r.eventId != e.id
  }

  // Rule i is the one the event asks for.
  ghost predicate Asked(d: Definition, s: Snapshot, e: Event, i: int) {
    0 <= i < |d.transitions| && d.transitions[i].source == s.state && d.transitions[i].event == e.kind
  }

  // A declared validator the rule names gives this verdict on the payload.
  ghost predicate Validates(ev: Evaluator, rule: TransitionRule, payload: string, verdict: bool) {
    exists v :: v in ev.definition.validators && Names(rule, v)
                && ev.validate(v.name, v.version, payload) == Some(verdict)
  }

  ghost predicate Names(rule: TransitionRule, v: PayloadValidator) {
    rule.validator == Some(v.name)
  }

  ghost predicate Approved(ev: Evaluator, rule: TransitionRule, payload: string) {
    rule.validator.Some? ==> Validates(ev, rule, payload, true)
  }

  ghost predicate Disapproved(ev: Evaluator, rule: TransitionRule, payload: string) {
    Validates(ev, rule, payload, false)
  }

  // The evidence is satisfied and has every authority and artifact the policy requires.
  ghost predicate Suffices(p: CompletionPolicy, c: Evidence) {
    && c.CompletionEvidence? && c.satisfied
    && (forall k :: 0 <= k < |p.requiredAuthorities| ==> p.requiredAuthorities[k] in c.authorities)
    && (forall k :: 0 <= k < |p.requiredArtifacts| ==> p.requiredArtifacts[k] in c.artifacts)
  }

  // The conditions a fresh event has to meet under rule i, in the order they are checked.
  ghost predicate Violates(s: Snapshot, e: Event, ev: Evaluator, i: int, stage: int) {
    var d := ev.definition;
    var asked := Asked(d, s, e, i);
    || (stage == 0 && s.budget.maxSteps <= s.stepsUsed)
    || (stage == 1 && s.state !in d.states)
    || (stage == 2 && s.state in d.completion.terminalStates)
    || (stage == 3 && e.kind !in d.events)
    || (stage == 4 && !asked)
    || (stage == 5 && asked && !Approved(ev, d.transitions[i], e.payload)
        && !Disapproved(ev, d.transitions[i], e.payload))
    || (stage == 6 && asked && Disapproved(ev, d.transitions[i], e.payload))
    || (stage == 7 && (exists a :: a in d.recovery.allowed && a.0 == s.state)
        && (s.state, e.kind) !in d.recovery.allowed)
    || (stage == 8 && asked && d.transitions[i].target in d.completion.terminalStates
        && ev.complete(d.completion.version, e.payload) == RaisedError)
    || (stage == 9 && asked && d.transitions[i].target in d.completion.terminalStates
        && !Suffices(d.completion, ev.complete(d.completion.version, e.payload)))
  }

  function CodeOf(stage: int): Code
    requires 0 <= stage < 10
  {
    [StepBudgetExhausted, UnknownState, TerminalState, UnknownEvent, UnknownTransition, EvaluatorFailure,
     InvalidPayload, RecoveryPolicyDenied, EvaluatorFailure, CompletionPolicyFailed][stage]
  }

  // The snapshot after taking rule i: one more record, one more step, and the rule's target.
  ghost predicate Moved(s: Snapshot, e: Event, d: Definition, i: int, t: Snapshot)
    requires 0 <= i < |d.transitions|
  {
    && t.state == d.transitions[i].target && t.revision == s.revision + 1 && t.stepsUsed == s.stepsUsed + 1
    && |t.history| == |s.history| + 1 && t.history[..|s.history|] == s.history
    && t.history[|s.history|] == Record(e.id, e.kind, s.state, d.transitions[i].target,
                                        IntentDigest(e.id, e.kind, e.payload, e.policyDigest), PolicyDigest(d))
    && (t.workflowId, t.material, t.generation, t.policyDigest, t.budget)
       == (s.workflowId, s.material, s.generation, s.policyDigest, s.budget)
  }

  lemma RuleIsTheOne(d: Definition, s: Snapshot, e: Event, i: int)
    requires WellFormed(d) && Asked(d, s, e, i)
    ensures FindRule(d.transitions, s.state, e.kind) == Some(d.transitions[i])
  {
    var r := FindRule(d.transitions, s.state, e.kind);
    assert d.transitions[i] in d.transitions;
    var j :| 0 <= j < |d.transitions| && d.transitions[j] == r.value;
    assert !(i < j) && !(j < i);
  }

  lemma ValidatorIsTheOne(d: Definition, v: PayloadValidator)
    requires WellFormed(d) && v in d.validators
    ensures FindValidator(d.validators, v.name) == Some(v)
  {
    var k :| 0 <= k < |d.validators| && d.validators[k] == v;
    FindsFirst(d.validators, k);
  }

  lemma {:induction false} FindsFirst(vs: seq<PayloadValidator>, k: nat)
    requires k < |vs| && forall j :: 0 <= j < k ==> vs[j].name != vs[k].name
    ensures FindValidator(vs, vs[k].name) == Some(vs[k])
  {
    if k > 0 { FindsFirst(vs[1..], k - 1); }
  }

  lemma PayloadMeaning(ev: Evaluator, rule: TransitionRule, payload: string)
    requires WellFormed(ev.definition) && rule in ev.definition.transitions
    ensures var o := PayloadObjection(ev, rule, payload);
      && (o == None <==> Approved(ev, rule, payload))
      && (o == Some(InvalidPayload) <==> Disapproved(ev, rule, payload))
      && (o == None || o == Some(InvalidPayload) || o == Some(EvaluatorFailure))
  {
    if rule.validator.Some? {
      var v :| v in ev.definition.validators && v.name == rule.validator.value;
      forall w | w in ev.definition.validators && Names(rule, w) ensures w == v {
        ValidatorIsTheOne(ev.definition, w);
        ValidatorIsTheOne(ev.definition, v);
      }
      ValidatorIsTheOne(ev.definition, v);
      assert Names(rule, v);
    }
  }

  lemma EvidenceMeaning(p: CompletionPolicy, c: Evidence)
    ensures CompletionHolds(p, c) <==> Suffices(p, c)
  {
  }

  // The first condition violated.
  ghost predicate FirstViolated(s: Snapshot, e: Event, ev: Evaluator, i: int, stage: int) {
    && 0 <= stage < 10 && Violates(s, e, ev, i, stage)
    && forall earlier :: 0 <= earlier < stage ==> !Violates(s, e, ev, i, earlier)
  }

  ghost predicate NothingViolated(s: Snapshot, e: Event, ev: Evaluator, i: int, upto: int) {
    forall stage :: 0 <= stage < upto ==> !Violates(s, e, ev, i, stage)
  }

  // i is the rule the event asks for, if there is one.
  ghost predicate AskedIfAny(d: Definition, s: Snapshot, e: Event, i: int) {
    Asked(d, s, e, i) || forall j :: !Asked(d, s, e, j)
  }

  lemma NoRuleIsFound(d: Definition, s: Snapshot, e: Event)
    requires forall j :: !Asked(d, s, e, j)
    ensures FindRule(d.transitions, s.state, e.kind).None?
  {
    var r := FindRule(d.transitions, s.state, e.kind);
    if r.Some? {
      var j :| 0 <= j < |d.transitions| && d.transitions[j] == r.value;
      assert Asked(d, s, e, j);
    }
  }

  // The objection from the rule on.
  lemma LateObjection(s: Snapshot, e: Event, ev: Evaluator, i: int)
    requires WellFormed(ev.definition) && Asked(ev.definition, s, e, i)
    ensures var rule := ev.definition.transitions[i];
      var payload, completion := PayloadObjection(ev, rule, e.payload), CompletionObjection(ev, rule.target, e.payload);
      && (payload == None || payload == Some(EvaluatorFailure) || payload == Some(InvalidPayload))
      && (Violates(s, e, ev, i, 5) <==> payload == Some(EvaluatorFailure))
      && (Violates(s, e, ev, i, 6) <==> payload == Some(InvalidPayload))
      && (Violates(s, e, ev, i, 7) <==> RecoveryDenied(ev.definition, s.state, e.kind))
      && (Violates(s, e, ev, i, 8) <==> completion == Some(EvaluatorFailure))
      && (!Violates(s, e, ev, i, 8) ==> (Violates(s, e, ev, i, 9) <==> completion == Some(CompletionPolicyFailed)))
      && (completion == None || completion == Some(EvaluatorFailure) || completion == Some(CompletionPolicyFailed))
  {
    var d := ev.definition;
    var rule := d.transitions[i];
    assert rule in d.transitions;
    PayloadMeaning(ev, rule, e.payload);
    EvidenceMeaning(d.completion, ev.complete(d.completion.version, e.payload));
    hide WellFormed, PayloadObjection, Suffices, CompletionHolds, Approved, Disapproved;
  }

  // The objection to a fresh event is that of the first condition violated.
  lemma ObjectionMeaning(s: Snapshot, e: Event, ev: Evaluator, i: int)
    requires WellFormed(ev.definition) && AskedIfAny(ev.definition, s, e, i)
    ensures forall stage :: FirstViolated(s, e, ev, i, stage) ==> FreshObjection(s, e, ev) == Some(CodeOf(stage))
    ensures NothingViolated(s, e, ev, i, 10) ==> FreshObjection(s, e, ev) == None && Asked(ev.definition, s, e, i)
  {
    var d := ev.definition;
    if Asked(d, s, e, i) {
      RuleIsTheOne(d, s, e, i);
      LateObjection(s, e, ev, i);
    } else {
      NoRuleIsFound(d, s, e);
    }
    hide WellFormed, PayloadObjection, CompletionObjection, RecoveryDenied, FindRule;
    var v := seq(10, k => Violates(s, e, ev, i, k));
    assert v[0] == (s.budget.maxSteps <= s.stepsUsed);
    assert v[1] == (s.state !in d.states);
    assert v[2] == IsTerminal(d, s.state);
    assert v[3] == (e.kind !in d.events);
    assert v[4] == !Asked(d, s, e, i);
    hide Violates, IsTerminal;
    forall stage | FirstViolated(s, e, ev, i, stage) ensures FreshObjection(s, e, ev) == Some(CodeOf(stage)) {
      assert v[stage] && forall k :: 0 <= k < stage ==> !v[k];
    }
    if NothingViolated(s, e, ev, i, 10) {
      assert forall k :: 0 <= k < 10 ==> !v[k];
    }
  }

  // The step ----------------------------------------------------------------------------------

  lemma OtherPolicyIsRejected(s: Snapshot, e: Event, ev: Evaluator)
    ensures !SamePolicy(s, e, ev) <==> Step(s, e, ev) == Rejected(PolicyMismatch, s)
  {
    hide FreshObjection;
    FreshCodes(s, e, ev);
  }

  // A fresh event's objections are not the two a step raises before.
  lemma FreshCodes(s: Snapshot, e: Event, ev: Evaluator)
    ensures FreshObjection(s, e, ev) != Some(PolicyMismatch)
    ensures FreshObjection(s, e, ev) != Some(EventIdentityConflict)
  {
    hide FindRule, FindValidator, RecoveryDenied, CompletionHolds;
  }

  // Under a known id the event is a replay when it is the one recorded, otherwise a conflict.
  lemma KnownIdAnswer(s: Snapshot, e: Event, ev: Evaluator, k: nat)
    requires SamePolicy(s, e, ev) && UniqueIds(s.history) && k < |s.history| && s.history[k].eventId == e.id
    ensures Step(s, e, ev) ==
      if s.history[k].intentDigest == IntentDigest(e.id, e.kind, e.payload, e.policyDigest)
         && s.history[k].policyDigest == PolicyDigest(ev.definition)
      then Accepted(true, s) else Rejected(EventIdentityConflict, s)
  {
    var r := FindRecord(s.history, e.id);
    assert s.history[k] in s.history;
    var j :| 0 <= j < |s.history| && s.history[j] == r.value;
    assert !(j < k) && !(k < j);
    hide FreshObjection;
  }

  // A fresh event is refused with the code of the first condition it violates; when it
  // violates none, the rule it asks for fires.
  lemma FreshAnswer(s: Snapshot, e: Event, ev: Evaluator, i: int)
    requires WellFormed(ev.definition) && SamePolicy(s, e, ev) && NewId(s, e) && AskedIfAny(ev.definition, s, e, i)
    ensures forall stage :: FirstViolated(s, e, ev, i, stage) ==> Step(s, e, ev) == Rejected(CodeOf(stage), s)
    ensures NothingViolated(s, e, ev, i, 10) ==>
      && Asked(ev.definition, s, e, i)
      && Step(s, e, ev).Accepted? && !Step(s, e, ev).replayed
      && Moved(s, e, ev.definition, i, Step(s, e, ev).snapshot)
  {
    ObjectionMeaning(s, e, ev, i);
    hide FirstViolated, NothingViolated, FreshObjection, WellFormed, AskedIfAny;
    if Asked(ev.definition, s, e, i) && FreshObjection(s, e, ev) == None {
      FiresRule(s, e, ev, i);
    }
  }

  lemma FiresRule(s: Snapshot, e: Event, ev: Evaluator, i: int)
    requires WellFormed(ev.definition) && SamePolicy(s, e, ev) && NewId(s, e) && Asked(ev.definition, s, e, i)
    requires FreshObjection(s, e, ev) == None
    ensures Step(s, e, ev).Accepted? && !Step(s, e, ev).replayed
    ensures Moved(s, e, ev.definition, i, Step(s, e, ev).snapshot)
  {
    RuleIsTheOne(ev.definition, s, e, i);
    hide FreshObjection, WellFormed, FindRule;
  }

  // Some rule the event asks for has every condition met.
  ghost predicate MayFire(s: Snapshot, e: Event, ev: Evaluator, i: int) {
    Asked(ev.definition, s, e, i) && NothingViolated(s, e, ev, i, 10)
  }

  lemma {:induction false} SomethingIsFirst(s: Snapshot, e: Event, ev: Evaluator, i: int, n: nat) returns (stage: int)
    requires n <= 10 && !NothingViolated(s, e, ev, i, n)
    ensures stage < n && FirstViolated(s, e, ev, i, stage)
  {
    hide Violates;
    if NothingViolated(s, e, ev, i, n - 1) {
      stage := n - 1;
    } else {
      stage := SomethingIsFirst(s, e, ev, i, n - 1);
    }
  }

  lemma AnyAsked(d: Definition, s: Snapshot, e: Event) returns (i: int)
    ensures AskedIfAny(d, s, e, i)
  {
    i := 0;
    if j :| Asked(d, s, e, j) { i := j; }
  }

  // An event is accepted afresh exactly under the policy in force, with a new id, and with a
  // rule that may fire.
  lemma FreshlyAcceptedIff(s: Snapshot, e: Event, ev: Evaluator)
    requires WellFormed(ev.definition)
    ensures Step(s, e, ev).Accepted? && !Step(s, e, ev).replayed <==>
      SamePolicy(s, e, ev) && NewId(s, e) && exists i :: MayFire(s, e, ev, i)
  {
    hide WellFormed, FreshObjection, NothingViolated, FirstViolated;
    if SamePolicy(s, e, ev) && NewId(s, e) {
      var i := AnyAsked(ev.definition, s, e);
      FreshAnswer(s, e, ev, i);
      if !NothingViolated(s, e, ev, i, 10) {
        var stage := SomethingIsFirst(s, e, ev, i, 10);
        forall j ensures !MayFire(s, e, ev, j) {
          if Asked(ev.definition, s, e, j) && Asked(ev.definition, s, e, i) { SameRule(ev.definition, s, e, i, j); }
        }
      } else {
        assert MayFire(s, e, ev, i);
      }
    }
  }

  // Completion is not taken on trust: an event accepted afresh into a terminal state brought
  // evidence that is satisfied and holds all the policy requires.
  lemma TerminalNeedsEvidence(s: Snapshot, e: Event, ev: Evaluator)
    requires WellFormed(ev.definition) && Step(s, e, ev).Accepted? && !Step(s, e, ev).replayed
    requires Step(s, e, ev).snapshot.state in ev.definition.completion.terminalStates
    ensures var policy := ev.definition.completion;
      Suffices(policy, ev.complete(policy.version, e.payload))
  {
    hide WellFormed, Step, NothingViolated;
    FreshlyAcceptedIff(s, e, ev);
    var i :| MayFire(s, e, ev, i);
    FreshAnswer(s, e, ev, i);
    AtStage(s, e, ev, i, 9);
  }

  // Nor is a payload: a rule that names a validator fires only on its approval.
  lemma ValidatorMustApprove(s: Snapshot, e: Event, ev: Evaluator, i: int)
    requires WellFormed(ev.definition) && Step(s, e, ev).Accepted? && !Step(s, e, ev).replayed
    requires Asked(ev.definition, s, e, i)
    ensures Approved(ev, ev.definition.transitions[i], e.payload)
  {
    hide WellFormed, Step, NothingViolated, Approved, Disapproved;
    FreshlyAcceptedIff(s, e, ev);
    var j :| MayFire(s, e, ev, j);
    SameRule(ev.definition, s, e, i, j);
    AtStage(s, e, ev, i, 5);
    AtStage(s, e, ev, i, 6);
  }

  lemma AtStage(s: Snapshot, e: Event, ev: Evaluator, i: int, stage: int)
    requires NothingViolated(s, e, ev, i, 10) && 0 <= stage < 10
    ensures !Violates(s, e, ev, i, stage)
  {
    hide Violates;
  }

  lemma SameRule(d: Definition, s: Snapshot, e: Event, i: int, j: int)
    requires WellFormed(d) && Asked(d, s, e, i) && Asked(d, s, e, j)
    ensures i == j
  {
  }

  // Runs ----------------------------------------------------------------------------------------

  // The record takes a declared transition, out of a state that is not terminal and, if it is
  // a recovery state, by an event the recovery policy allows there.
  ghost predicate Lawful(d: Definition, r: Record) {
    && (exists i :: 0 <= i < |d.transitions| && d.transitions[i].source == r.source
                    && d.transitions[i].event == r.kind && d.transitions[i].target == r.target)
    && r.source !in d.completion.terminalStates
    && ((r.source, r.kind) in d.recovery.allowed || forall a :: a in d.recovery.allowed ==> a.0 != r.source)
  }

  // Every run from a first snapshot: counters that count its records, within the budget,
  // under ids of their own; a history that leads from the initial state to the present one
  // by lawful records.
  lemma RunMeaning(workflowId: string, material: Revision, budget: Budget, generation: int, es: seq<Event>,
                   ev: Evaluator)
    requires 1 <= budget.maxSteps && 0 <= generation < budget.maxGenerations
    ensures var d, s := ev.definition, Run(Initial(workflowId, material, ev.definition, budget, generation), es, ev);
      var h := s.history;
      && s.revision == s.stepsUsed == |h| <= budget.maxSteps
      && (forall i, j :: 0 <= i < j < |h| ==> h[i].eventId != h[j].eventId)
      && (forall k :: 0 <= k < |h| ==> h[k].source == if k == 0 then d.initialState else h[k - 1].target)
      && s.state == (if h == [] then d.initialState else h[|h| - 1].target)
      && (forall k :: 0 <= k < |h| ==> Lawful(d, h[k]))
  {
    var d, start := ev.definition, Initial(workflowId, material, ev.definition, budget, generation);
    InitialIsOnPath(workflowId, material, d, budget, generation);
    RunKeepsPath(start, es, ev);
    hide Run;
    PathMeaning(d, Run(start, es, ev));
  }

  lemma PathMeaning(d: Definition, s: Snapshot)
    requires OnPath(d, s)
    ensures var h := s.history;
      && s.revision == s.stepsUsed == |h| <= s.budget.maxSteps
      && (forall i, j :: 0 <= i < j < |h| ==> h[i].eventId != h[j].eventId)
      && (forall k :: 0 <= k < |h| ==> h[k].source == if k == 0 then d.initialState else h[k - 1].target)
      && s.state == (if h == [] then d.initialState else h[|h| - 1].target)
      && (forall k :: 0 <= k < |h| ==> Lawful(d, h[k]))
  {
    var h := s.history;
    forall k | 0 < k < |h| ensures h[k].source == h[k - 1].target {
      assert h[k - 1].target == h[k - 1 + 1].source;
    }
    forall k | 0 <= k < |h| ensures Lawful(d, h[k]) {
      assert h[k] in h && FromRule(d, h[k]);
      RuleIsLawful(d, h[k]);
    }
  }

  lemma RuleIsLawful(d: Definition, r: Record)
    requires FromRule(d, r)
    ensures Lawful(d, r)
  {
    var t :| t in d.transitions && Executable(d, t) && (r.source, r.kind, r.target) == (t.source, t.event, t.target);
    var i :| 0 <= i < |d.transitions| && d.transitions[i] == t;
  }
}
