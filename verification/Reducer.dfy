/** The pure transition decision `step`, its runs, and what every run keeps. */
module Reducer {
  import opened Options
  import opened Protocol

  // What a completion callback may do: raise, return something else, or give evidence.
  datatype Evidence =
    | RaisedError
    | NotEvidence
    | CompletionEvidence(satisfied: bool, authorities: seq<string>, artifacts: seq<string>)

  // A policy evaluator; None from `validate` stands for an exception.
  datatype Evaluator = Evaluator(
    definition: Definition,
    version: string,
    policyDigest: Digest,
    validate: (string, string, string) -> Option<bool>,
    complete: (string, string) -> Evidence)

  datatype Code =
    | PolicyMismatch | EventIdentityConflict | StepBudgetExhausted | UnknownState | TerminalState
    | UnknownEvent | UnknownTransition | InvalidPayload | RecoveryPolicyDenied | CompletionPolicyFailed
    | EvaluatorFailure

  datatype TransitionResult =
    | Accepted(replayed: bool, snapshot: Snapshot)
    | Rejected(code: Code, snapshot: Snapshot)

  predicate Bound(ev: Evaluator) {
    ev.version == ev.definition.evaluatorVersion && ev.policyDigest == PolicyDigest(ev.definition)
  }

  function FindRecord(history: seq<Record>, id: string): (r: Option<Record>)
    ensures r.Some? ==> r.value in history && r.value.eventId == id
    ensures r.None? ==> forall x :: x in history ==> x.eventId != id
  {
    if history == [] then None
    else if history[0].eventId == id then Some(history[0])
    else FindRecord(history[1..], id)
  }

  function FindRule(rules: seq<TransitionRule>, source: string, event: string): (r: Option<TransitionRule>)
    ensures r.Some? ==> r.value in rules && r.value.source == source && r.value.event == event
    ensures r.None? ==> forall x :: x in rules ==> (x.source, x.event) != (source, event)
  {
    if rules == [] then None
    else if (rules[0].source, rules[0].event) == (source, event) then Some(rules[0])
    else FindRule(rules[1..], source, event)
  }

  function FindValidator(vs: seq<PayloadValidator>, name: string): Option<PayloadValidator> {
    if vs == [] then None
    else if vs[0].name == name then Some(vs[0])
    else FindValidator(vs[1..], name)
  }

  predicate CompletionHolds(p: CompletionPolicy, e: Evidence) {
    && e.CompletionEvidence? && e.satisfied
    && (forall a :: a in p.requiredAuthorities ==> a in e.authorities)
    && (forall a :: a in p.requiredArtifacts ==> a in e.artifacts)
  }

  predicate IsRecoveryState(d: Definition, state: string) {
    exists a :: a in d.recovery.allowed && a.0 == state
  }

  predicate RecoveryDenied(d: Definition, state: string, kind: string) {
    IsRecoveryState(d, state) && (state, kind) !in d.recovery.allowed
  }

  // None: no objection from the payload validator the rule names.
  function PayloadObjection(ev: Evaluator, rule: TransitionRule, payload: string): Option<Code> {
    if rule.validator.None? then None
    else
      match FindValidator(ev.definition.validators, rule.validator.value)
      case None => Some(EvaluatorFailure)
      case Some(v) =>
        match ev.validate(v.name, v.version, payload)
        case None => Some(EvaluatorFailure)
        case Some(ok) => if ok then None else Some(InvalidPayload)
  }

  function CompletionObjection(ev: Evaluator, target: string, payload: string): Option<Code> {
    if !IsTerminal(ev.definition, target) then None
    else
      var e := ev.complete(ev.definition.completion.version, payload);
      if e.RaisedError? then Some(EvaluatorFailure)
      else if CompletionHolds(ev.definition.completion, e) then None
      else Some(CompletionPolicyFailed)
  }

  // The objection to a fresh event, in the order the source checks.
  function FreshObjection(s: Snapshot, e: Event, ev: Evaluator): Option<Code> {
    var d := ev.definition;
    if s.stepsUsed >= s.budget.maxSteps then Some(StepBudgetExhausted)
    else if s.state !in d.states then Some(UnknownState)
    else if IsTerminal(d, s.state) then Some(TerminalState)
    else if e.kind !in d.events then Some(UnknownEvent)
    else
      match FindRule(d.transitions, s.state, e.kind)
      case None => Some(UnknownTransition)
      case Some(rule) =>
        var objection := PayloadObjection(ev, rule, e.payload);
        if objection.Some? then objection
        else if RecoveryDenied(d, s.state, e.kind) then Some(RecoveryPolicyDenied)
        else CompletionObjection(ev, rule.target, e.payload)
  }

  function Advanced(s: Snapshot, e: Event, rule: TransitionRule, digest: Digest): Snapshot {
    var record := Record(e.id, e.kind, s.state, rule.target, IntentOf(e), digest);
    s.(state := rule.target, revision := s.revision + 1, stepsUsed := s.stepsUsed + 1,
       history := s.history + [record])
  }

  // `step`.
  function Step(s: Snapshot, e: Event, ev: Evaluator): TransitionResult {
    var digest := PolicyDigest(ev.definition);
    if !Bound(ev) || s.policyDigest != digest || e.policyDigest != digest then Rejected(PolicyMismatch, s)
    else
      match FindRecord(s.history, e.id)
      case Some(prior) =>
        if prior.intentDigest == IntentOf(e) && prior.policyDigest == digest then Accepted(true, s)
        else Rejected(EventIdentityConflict, s)
      case None =>
        match FreshObjection(s, e, ev)
        case Some(code) => Rejected(code, s)
        case None => Accepted(false, Advanced(s, e, FindRule(ev.definition.transitions, s.state, e.kind).value, digest))
  }

  function Run(s: Snapshot, es: seq<Event>, ev: Evaluator): Snapshot
    decreases |es|
  {
    if es == [] then s else Run(Step(s, es[0], ev).snapshot, es[1..], ev)
  }

  lemma {:induction false} RunConcat(s: Snapshot, a: seq<Event>, b: seq<Event>, ev: Evaluator)
    ensures Run(s, a + b, ev) == Run(Run(s, a, ev), b, ev)
    decreases |a|
  {
    if a == [] {
      assert a + b == b;
    } else {
      assert (a + b)[0] == a[0] && (a + b)[1..] == a[1..] + b;
      RunConcat(Step(s, a[0], ev).snapshot, a[1..], b, ev);
    }
  }

  // What every run keeps --------------------------------------------------------------

  // An executable transition: out of a state that is neither terminal nor in recovery
  // without allowing this event.
  predicate Executable(d: Definition, r: TransitionRule) {
    r in d.transitions && !IsTerminal(d, r.source) && !RecoveryDenied(d, r.source, r.event)
  }

  ghost predicate FromRule(d: Definition, r: Record) {
    exists t :: t in d.transitions && Executable(d, t) && (r.source, r.kind, r.target) == (t.source, t.event, t.target)
  }

  // A snapshot some run of the definition could have produced.
  ghost predicate OnPath(d: Definition, s: Snapshot) {
    && ValidSnapshot(s) && s.policyDigest == PolicyDigest(d)
    && (s.history == [] ==> s.state == d.initialState)
    && (s.history != [] ==> s.history[0].source == d.initialState)
    && (forall r :: r in s.history ==> FromRule(d, r))
  }

  // The constructor's checks never fail on an accepted event.
  lemma AdvanceStaysValid(s: Snapshot, e: Event, ev: Evaluator)
    requires ValidSnapshot(s) && Step(s, e, ev).Accepted?
    ensures ValidSnapshot(Step(s, e, ev).snapshot)
  {
  }

  lemma AdvanceKeepsPath(s: Snapshot, e: Event, ev: Evaluator)
    requires OnPath(ev.definition, s)
    requires Step(s, e, ev).Accepted? && !Step(s, e, ev).replayed
    ensures OnPath(ev.definition, Step(s, e, ev).snapshot)
  {
    AdvanceStaysValid(s, e, ev);
    hide ValidSnapshot;
    var d := ev.definition;
    var rule := FindRule(d.transitions, s.state, e.kind).value;
    var t := Step(s, e, ev).snapshot;
    var record := t.history[|s.history|];
    assert Executable(d, rule);
    assert FromRule(d, record);
    assert forall r :: r in t.history <==> r in s.history || r == record;
  }

  // One step keeps the snapshot's invariants; only a fresh acceptance changes it.
  lemma StepKeepsPath(s: Snapshot, e: Event, ev: Evaluator)
    requires OnPath(ev.definition, s)
    ensures OnPath(ev.definition, Step(s, e, ev).snapshot)
    ensures var t := Step(s, e, ev).snapshot;
      && t.budget == s.budget && t.generation == s.generation && s.history <= t.history
      && (t != s ==> !IsTerminal(ev.definition, s.state) && |t.history| == |s.history| + 1)
  {
    if Step(s, e, ev).Accepted? && !Step(s, e, ev).replayed {
      AdvanceKeepsPath(s, e, ev);
    }
  }

  lemma {:induction false} RunKeepsPath(s: Snapshot, es: seq<Event>, ev: Evaluator)
    requires OnPath(ev.definition, s)
    ensures OnPath(ev.definition, Run(s, es, ev))
    ensures Run(s, es, ev).budget == s.budget && Run(s, es, ev).generation == s.generation
    ensures s.history <= Run(s, es, ev).history
    ensures IsTerminal(ev.definition, s.state) ==> Run(s, es, ev) == s
    decreases |es|
  {
    if es != [] {
      StepKeepsPath(s, es[0], ev);
      RunKeepsPath(Step(s, es[0], ev).snapshot, es[1..], ev);
    }
  }

  lemma InitialIsOnPath(workflowId: string, material: Revision, d: Definition, budget: Budget, generation: int)
    requires 1 <= budget.maxSteps && 0 <= generation < budget.maxGenerations
    ensures OnPath(d, Initial(workflowId, material, d, budget, generation))
  {
  }

  // Redelivery ------------------------------------------------------------------------

  // An id that has been accepted, under whatever intent, never changes the state again.
  lemma KnownIdChangesNothing(s: Snapshot, e: Event, ev: Evaluator)
    requires FindRecord(s.history, e.id).Some?
    ensures Step(s, e, ev).snapshot == s
  {
  }

  // A faithful redelivery is accepted as a replay; a different intent is a conflict.
  lemma RedeliveryOutcome(s: Snapshot, e: Event, again: Event, ev: Evaluator)
    requires ValidSnapshot(s)
    requires Step(s, e, ev).Accepted? && !Step(s, e, ev).replayed && again.id == e.id
    ensures var t := Step(s, e, ev).snapshot;
      && (again == e ==> Step(t, again, ev) == Accepted(true, t))
      && (again != e && again.policyDigest == e.policyDigest ==>
          Step(t, again, ev) == Rejected(EventIdentityConflict, t))
  {
    var t := Step(s, e, ev).snapshot;
    FindAppended(s.history, t.history[|s.history|]);
  }

  lemma {:induction false} FindAppended(history: seq<Record>, r: Record)
    requires FindRecord(history, r.eventId).None?
    ensures FindRecord(history + [r], r.eventId) == Some(r)
  {
    if history != [] {
      FindAppended(history[1..], r);
      assert (history + [r])[1..] == history[1..] + [r];
    }
  }

  // `noisy` is `base` with events inserted whose ids had been accepted by then.
  ghost predicate Noisy(s: Snapshot, base: seq<Event>, noisy: seq<Event>, ev: Evaluator)
    decreases |noisy|
  {
    if noisy == [] then base == []
    else
      || (base != [] && noisy[0] == base[0] && Noisy(Step(s, base[0], ev).snapshot, base[1..], noisy[1..], ev))
      || (FindRecord(s.history, noisy[0].id).Some? && Noisy(s, base, noisy[1..], ev))
  }

  // Redelivery is harmless: any number of repeats, anywhere after acceptance.
  lemma {:induction false} RedeliveryIsHarmless(s: Snapshot, base: seq<Event>, noisy: seq<Event>, ev: Evaluator)
    requires Noisy(s, base, noisy, ev)
    ensures Run(s, noisy, ev) == Run(s, base, ev)
    decreases |noisy|
  {
    if noisy != [] {
      if base != [] && noisy[0] == base[0] && Noisy(Step(s, base[0], ev).snapshot, base[1..], noisy[1..], ev) {
        RedeliveryIsHarmless(Step(s, base[0], ev).snapshot, base[1..], noisy[1..], ev);
      } else {
        KnownIdChangesNothing(s, noisy[0], ev);
        RedeliveryIsHarmless(s, base, noisy[1..], ev);
      }
    }
  }

  // In particular: once e has been accepted, a copy of it at any later point is noise.
  lemma LateCopyIsHarmless(s: Snapshot, before: seq<Event>, e: Event, between: seq<Event>, after: seq<Event>,
                           ev: Evaluator)
    requires OnPath(ev.definition, s) && FindRecord(Run(s, before, ev).history, e.id).Some?
    ensures Run(s, before + between + [e] + after, ev) == Run(s, before + between + after, ev)
  {
    var t := Run(s, before + between, ev);
    RunKeepsPath(s, before, ev);
    RunConcat(s, before, between, ev);
    RunKeepsPath(Run(s, before, ev), between, ev);
    var r := FindRecord(Run(s, before, ev).history, e.id).value;
    assert r in t.history;
    assert FindRecord(t.history, e.id).Some?;
    KnownIdChangesNothing(t, e, ev);
    RunConcat(s, before + between, [e] + after, ev);
    assert before + between + [e] + after == before + between + ([e] + after);
    RunConcat(t, [e], after, ev);
    assert Run(t, [e], ev) == t by { assert [e][1..] == []; }
    RunConcat(s, before + between, after, ev);
  }
}
