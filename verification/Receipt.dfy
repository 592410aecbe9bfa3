/** Completion receipts and lineages of successors. */
module Receipt {
  import opened Options
  import opened Protocol
  import opened Reducer
  import opened Conformance

  datatype ProtocolReceipt = ProtocolReceipt(body: ReceiptBody, contentDigest: Digest)

  const SCHEMA_VERSION := "ouroboros-receipt/v1"

  // What the receipt constructor insists on; it raises otherwise.
  predicate Constructible(r: ProtocolReceipt) {
    var b := r.body;
    && b.schemaVersion == SCHEMA_VERSION
    && b.generation >= 0 && b.finalRevision == |b.history|
    && UniqueIds(b.history)
    && (forall x :: x in b.history ==> x.policyDigest == b.policyDigest)
    && (b.history != [] ==> b.history[|b.history| - 1].target == b.state && Contiguous(b.history))
    && r.contentDigest == ContentDigest(b)
  }

  datatype ValidationError =
    | UnsupportedSchema | ContentMismatch | PolicyDigestMismatch | NotTerminal | RevisionMismatch
    | EmptyHistoryNotInitial | NotFromInitial | UndeclaredTransition

  predicate DeclaredTransition(d: Definition, r: Record) {
    exists t :: t in d.transitions && (r.source, r.kind, r.target) == (t.source, t.event, t.target)
  }

  // `_definition_history_errors`.
  function HistoryErrors(state: string, history: seq<Record>, d: Definition): seq<ValidationError> {
    if history == [] then
      if state == d.initialState then [] else [EmptyHistoryNotInitial]
    else
      (if history[0].source != d.initialState then [NotFromInitial] else [])
      + (if exists r :: r in history && !DeclaredTransition(d, r) then [UndeclaredTransition] else [])
  }

  // The condition each error reports.
  predicate Fails(r: ProtocolReceipt, ev: Evaluator, e: ValidationError) {
    var b, d := r.body, ev.definition;
    match e
    case UnsupportedSchema => b.schemaVersion != SCHEMA_VERSION
    case ContentMismatch => r.contentDigest != ContentDigest(b)
    case PolicyDigestMismatch => !Bound(ev) || b.policyDigest != PolicyDigest(d)
    case NotTerminal => !IsTerminal(d, b.state)
    case RevisionMismatch => b.finalRevision != |b.history|
    case EmptyHistoryNotInitial => b.history == [] && b.state != d.initialState
    case NotFromInitial => b.history != [] && b.history[0].source != d.initialState
    case UndeclaredTransition => exists x :: x in b.history && !DeclaredTransition(d, x)
  }

  // The order errors are reported in.
  function Rank(e: ValidationError): nat {
    match e
    case UnsupportedSchema => 0
    case ContentMismatch => 1
    case PolicyDigestMismatch => 2
    case NotTerminal => 3
    case RevisionMismatch => 4
    case EmptyHistoryNotInitial => 5
    case NotFromInitial => 6
    case UndeclaredTransition => 7
  }

  lemma HeaderFailures(r: ProtocolReceipt, ev: Evaluator)
    ensures Fails(r, ev, UnsupportedSchema) <==> r.body.schemaVersion != SCHEMA_VERSION
    ensures Fails(r, ev, ContentMismatch) <==> r.contentDigest != ContentDigest(r.body)
    ensures Fails(r, ev, PolicyDigestMismatch) <==> !Bound(ev) || r.body.policyDigest != PolicyDigest(ev.definition)
    ensures Fails(r, ev, NotTerminal) <==> !IsTerminal(ev.definition, r.body.state)
    ensures Fails(r, ev, RevisionMismatch) <==> r.body.finalRevision != |r.body.history|
  {
  }

  // `errors` lists, in order, the failed conditions among the first `upto`.
  predicate Reported(r: ProtocolReceipt, ev: Evaluator, errors: seq<ValidationError>, upto: nat) {
    && (forall e :: e in errors <==> Rank(e) < upto && Fails(r, ev, e))
    && (forall i, j :: 0 <= i < j < |errors| ==> Rank(errors[i]) < Rank(errors[j]))
  }

  lemma ReportNext(r: ProtocolReceipt, ev: Evaluator, errors: seq<ValidationError>, e: ValidationError)
    requires Reported(r, ev, errors, Rank(e))
    ensures Fails(r, ev, e) ==> Reported(r, ev, errors + [e], Rank(e) + 1)
    ensures !Fails(r, ev, e) ==> Reported(r, ev, errors, Rank(e) + 1)
  {
    hide Fails;
    var more := if Fails(r, ev, e) then errors + [e] else errors;
    forall x ensures x in more <==> Rank(x) < Rank(e) + 1 && Fails(r, ev, x) {
      assert x in more <==> x in errors || (x == e && Fails(r, ev, e));
      assert Rank(x) == Rank(e) ==> x == e;
    }
    forall i, j | 0 <= i < j < |more| ensures Rank(more[i]) < Rank(more[j]) {
      assert errors != [] ==> more[i] in errors;
    }
  }

  lemma NothingReportedYet(r: ProtocolReceipt, ev: Evaluator)
    ensures Reported(r, ev, [], 0)
  {
  }

  lemma HistoryReported(r: ProtocolReceipt, ev: Evaluator, errors: seq<ValidationError>)
    requires Reported(r, ev, errors, 5)
    ensures Reported(r, ev, errors + HistoryErrors(r.body.state, r.body.history, ev.definition), 8)
  {
    hide Reported;
    ReportNext(r, ev, errors, EmptyHistoryNotInitial);
    var more := if Fails(r, ev, EmptyHistoryNotInitial) then errors + [EmptyHistoryNotInitial] else errors;
    ReportNext(r, ev, more, NotFromInitial);
    var most := if Fails(r, ev, NotFromInitial) then more + [NotFromInitial] else more;
    ReportNext(r, ev, most, UndeclaredTransition);
    var all := if Fails(r, ev, UndeclaredTransition) then most + [UndeclaredTransition] else most;
    assert all == errors + HistoryErrors(r.body.state, r.body.history, ev.definition);
  }

  lemma AcceptedIffNothingFails(r: ProtocolReceipt, ev: Evaluator)
    ensures AcceptedReceipt(r, ev) <==> forall e :: !Fails(r, ev, e)
  {
    hide DeclaredTransition, Bound, IsTerminal;
    if !AcceptedReceipt(r, ev) {
      assert Fails(r, ev, UnsupportedSchema) || Fails(r, ev, ContentMismatch) || Fails(r, ev, PolicyDigestMismatch)
        || Fails(r, ev, NotTerminal) || Fails(r, ev, RevisionMismatch) || Fails(r, ev, EmptyHistoryNotInitial)
        || Fails(r, ev, NotFromInitial) || Fails(r, ev, UndeclaredTransition);
    }
  }

  lemma NothingReportedIffAccepted(r: ProtocolReceipt, ev: Evaluator, errors: seq<ValidationError>)
    requires Reported(r, ev, errors, 8)
    ensures errors == [] <==> AcceptedReceipt(r, ev)
  {
    hide AcceptedReceipt, Fails;
    AcceptedIffNothingFails(r, ev);
    if errors != [] { assert errors[0] in errors; }
    assert forall e :: Rank(e) < 8;
  }

  // `validate_receipt`: every failed condition once, in the order of the checks; nothing
  // fails exactly for an accepted receipt.
  method ValidateReceipt(r: ProtocolReceipt, ev: Evaluator) returns (errors: seq<ValidationError>)
    ensures Reported(r, ev, errors, 8)
    ensures errors == [] <==> AcceptedReceipt(r, ev)
  {
    errors := [];
    HeaderFailures(r, ev);
    NothingReportedYet(r, ev);
    hide Reported, AcceptedReceipt, HistoryErrors, Fails, Bound, IsTerminal;
    ReportNext(r, ev, errors, UnsupportedSchema);
    if r.body.schemaVersion != SCHEMA_VERSION {
      errors := errors + [UnsupportedSchema];
    }
    ReportNext(r, ev, errors, ContentMismatch);
    if r.contentDigest != ContentDigest(r.body) {
      errors := errors + [ContentMismatch];
    }
    ReportNext(r, ev, errors, PolicyDigestMismatch);
    if !Bound(ev) || r.body.policyDigest != PolicyDigest(ev.definition) {
      errors := errors + [PolicyDigestMismatch];
    }
    ReportNext(r, ev, errors, NotTerminal);
    if !IsTerminal(ev.definition, r.body.state) {
      errors := errors + [NotTerminal];
    }
    ReportNext(r, ev, errors, RevisionMismatch);
    if r.body.finalRevision != |r.body.history| {
      errors := errors + [RevisionMismatch];
    }
    HistoryReported(r, ev, errors);
    errors := errors + HistoryErrors(r.body.state, r.body.history, ev.definition);
    NothingReportedIffAccepted(r, ev, errors);
  }

  // A receipt free of errors: bound, terminal, and a walk over declared transitions.
  predicate AcceptedReceipt(r: ProtocolReceipt, ev: Evaluator) {
    var b, d := r.body, ev.definition;
    && b.schemaVersion == SCHEMA_VERSION && r.contentDigest == ContentDigest(b)
    && Bound(ev) && b.policyDigest == PolicyDigest(d)
    && IsTerminal(d, b.state) && b.finalRevision == |b.history|
    && (if b.history == [] then b.state == d.initialState
        else b.history[0].source == d.initialState && forall x :: x in b.history ==> DeclaredTransition(d, x))
  }

  datatype ReceiptOutcome = Issued(receipt: ProtocolReceipt) | Refused

  // `receipt_from_snapshot`.
  function ReceiptFromSnapshot(s: Snapshot, ev: Evaluator): ReceiptOutcome {
    var d := ev.definition;
    if !Bound(ev) || s.policyDigest != PolicyDigest(d) then Refused
    else if !IsTerminal(d, s.state) then Refused
    else if HistoryErrors(s.state, s.history, d) != [] then Refused
    else
      var body := ReceiptBody(SCHEMA_VERSION, s.workflowId, s.material, s.generation, s.revision, s.state,
                              s.policyDigest, s.history);
      var receipt := ProtocolReceipt(body, ContentDigest(body));
      if Constructible(receipt) then Issued(receipt) else Refused
  }

  lemma PathHasNoHistoryErrors(d: Definition, s: Snapshot)
    requires OnPath(d, s)
    ensures HistoryErrors(s.state, s.history, d) == []
  {
    forall r | r in s.history ensures DeclaredTransition(d, r) {
      assert FromRule(d, r);
    }
  }

  lemma TerminalPathYieldsReceipt(s: Snapshot, ev: Evaluator)
    requires Bound(ev) && OnPath(ev.definition, s) && IsTerminal(ev.definition, s.state)
    ensures ReceiptFromSnapshot(s, ev).Issued? && AcceptedReceipt(ReceiptFromSnapshot(s, ev).receipt, ev)
    ensures ReceiptFromSnapshot(s, ev).receipt.body.history == s.history
  {
    PathHasNoHistoryErrors(ev.definition, s);
    forall r | r in s.history ensures DeclaredTransition(ev.definition, r) {
      assert FromRule(ev.definition, r);
    }
  }

  // Every terminal snapshot of a run yields a receipt, and it is free of errors.
  lemma TerminalRunYieldsReceipt(start: Snapshot, es: seq<Event>, ev: Evaluator)
    requires Bound(ev) && OnPath(ev.definition, start)
    requires IsTerminal(ev.definition, Run(start, es, ev).state)
    ensures var s := Run(start, es, ev);
      ReceiptFromSnapshot(s, ev).Issued? && AcceptedReceipt(ReceiptFromSnapshot(s, ev).receipt, ev)
      && ReceiptFromSnapshot(s, ev).receipt.body.history == s.history
  {
    hide Run, OnPath, ReceiptFromSnapshot, AcceptedReceipt;
    RunKeepsPath(start, es, ev);
    TerminalPathYieldsReceipt(Run(start, es, ev), ev);
  }

  // Some run of the definition issues the receipt.
  ghost predicate IssuedByRun(r: ProtocolReceipt, d: Definition) {
    exists ev: Evaluator, start: Snapshot, es: seq<Event> ::
      FirstSnapshot(d, start, ev) && ReceiptFromSnapshot(Run(start, es, ev), ev) == Issued(r)
  }

  ghost predicate FollowsReducer(r: ProtocolReceipt, d: Definition) {
    forall x :: x in r.body.history ==> FromRule(d, x) && Genuine(d, x)
  }

  lemma {:induction false} RunRecordsAreGenuine(start: Snapshot, es: seq<Event>, ev: Evaluator)
    requires forall x :: x in start.history ==> Genuine(ev.definition, x)
    ensures forall x :: x in Run(start, es, ev).history ==> Genuine(ev.definition, x)
    decreases |es|
  {
    if es != [] {
      RunRecordsAreGenuine(Step(start, es[0], ev).snapshot, es[1..], ev);
    }
  }

  lemma IssuedFollowsReducer(r: ProtocolReceipt, d: Definition)
    requires IssuedByRun(r, d)
    ensures FollowsReducer(r, d)
  {
    var ev: Evaluator, start: Snapshot, es: seq<Event> :|
      FirstSnapshot(d, start, ev) && ReceiptFromSnapshot(Run(start, es, ev), ev) == Issued(r);
    RunKeepsPath(start, es, ev);
    RunRecordsAreGenuine(start, es, ev);
  }

  // Validation accepts walks over declared transitions. A well-shaped accepted receipt
  // comes from a run exactly when, besides, every record took a transition the reducer
  // would (none out of a terminal or recovery-denied state) and names its own intent.
  lemma AcceptedReceiptFromRunIff(r: ProtocolReceipt, ev: Evaluator)
    requires WellFormed(ev.definition) && Constructible(r) && AcceptedReceipt(r, ev)
    ensures IssuedByRun(r, ev.definition) <==> FollowsReducer(r, ev.definition)
  {
    var d, b := ev.definition, r.body;
    if IssuedByRun(r, d) { IssuedFollowsReducer(r, d); }
    if FollowsReducer(r, d) {
      var start := Initial(b.workflowId, b.material, d, Budget(|b.history| + 1, b.generation + 1), b.generation);
      HistoryRuns(d, b.history, start);
      ReceiptOfReplay(r, ev, start);
      assert FirstSnapshot(d, start, Permissive(d));
    }
  }

  lemma ReceiptOfReplay(r: ProtocolReceipt, ev: Evaluator, start: Snapshot)
    requires Constructible(r) && AcceptedReceipt(r, ev)
    requires start == Initial(r.body.workflowId, r.body.material, ev.definition, start.budget, r.body.generation)
    ensures ReceiptFromSnapshot(WithHistory(start, r.body.history), Permissive(ev.definition)) == Issued(r)
  {
    assert HistoryErrors(r.body.state, r.body.history, ev.definition) == [];
  }

  // A transition out of the terminal state b, and a receipt that takes it.
  function LoopDefinition(): Definition {
    Definition("p", "1", "1", ["a", "b"], ["go"], "a",
      [TransitionRule("a", "go", "b", None), TransitionRule("b", "go", "b", None)],
      CompletionPolicy("1", ["b"], [], []), RecoveryPolicy("1", []), [])
  }

  function LoopReceipt(): ProtocolReceipt {
    var d := LoopDefinition();
    var history := [RecordFor(d, d.transitions[0], 0), RecordFor(d, d.transitions[1], 1)];
    var body := ReceiptBody(SCHEMA_VERSION, "w", Revision("n", "v"), 0, 2, "b", PolicyDigest(d), history);
    ProtocolReceipt(body, ContentDigest(body))
  }

  lemma LoopDefinitionIsWellFormed()
    ensures WellFormed(LoopDefinition()) && IsTerminal(LoopDefinition(), "b")
  {
  }

  lemma LoopReceiptIsAccepted()
    ensures Constructible(LoopReceipt())
    ensures AcceptedReceipt(LoopReceipt(), Permissive(LoopDefinition()))
  {
    hide DeclaredTransition, WellFormed, IsTerminal;
    LoopDefinitionIsWellFormed();
    var d, history := LoopDefinition(), LoopReceipt().body.history;
    assert |IdOf(0)| != |IdOf(1)|;
    DeclaredByIndex(d, history[0], 0);
    DeclaredByIndex(d, history[1], 1);
  }

  lemma DeclaredByIndex(d: Definition, r: Record, k: nat)
    requires k < |d.transitions|
    requires (r.source, r.kind, r.target) == (d.transitions[k].source, d.transitions[k].event, d.transitions[k].target)
    ensures DeclaredTransition(d, r)
  {
    assert d.transitions[k] in d.transitions;
  }

  // The gap is real: an accepted receipt that walks out of a terminal state.
  lemma AcceptedWithoutRun() returns (r: ProtocolReceipt, ev: Evaluator)
    ensures WellFormed(ev.definition) && Constructible(r) && AcceptedReceipt(r, ev)
    ensures !IssuedByRun(r, ev.definition)
  {
    r, ev := LoopReceipt(), Permissive(LoopDefinition());
    LoopDefinitionIsWellFormed();
    LoopReceiptIsAccepted();
    hide IssuedByRun, WellFormed, Constructible, AcceptedReceipt;
    assert r.body.history[1] in r.body.history && !FromRule(ev.definition, r.body.history[1]);
    if IssuedByRun(r, ev.definition) {
      IssuedFollowsReducer(r, ev.definition);
    }
  }

  // Successors --------------------------------------------------------------------------

  datatype SuccessorOutcome = Successor(snapshot: Snapshot) | NoSuccessor

  // `start_successor`.
  function StartSuccessor(s: Snapshot, material: Revision, ev: Evaluator): SuccessorOutcome {
    var d := ev.definition;
    if !Bound(ev) || s.policyDigest != PolicyDigest(d) then NoSuccessor
    else if !IsTerminal(d, s.state) then NoSuccessor
    else if ReceiptFromSnapshot(s, ev).Refused? then NoSuccessor
    else if s.generation + 1 >= s.budget.maxGenerations then NoSuccessor
    else Successor(Initial(s.workflowId, material, d, s.budget, s.generation + 1))
  }

  // A snapshot on its path has a successor exactly when its state is terminal and the budget
  // has a generation left: the definition's first snapshot, a generation on.
  lemma SuccessorIff(s: Snapshot, material: Revision, ev: Evaluator)
    requires Bound(ev) && OnPath(ev.definition, s)
    ensures StartSuccessor(s, material, ev) ==
      if s.state in ev.definition.completion.terminalStates && s.generation + 1 < s.budget.maxGenerations then
        Successor(Snapshot(s.workflowId, material, s.generation + 1, 0, ev.definition.initialState,
                           PolicyDigest(ev.definition), s.budget, 0, []))
      else NoSuccessor
  {
    if IsTerminal(ev.definition, s.state) { TerminalPathYieldsReceipt(s, ev); }
    hide OnPath, ReceiptFromSnapshot;
  }

  // Under another policy there is none, nor for a snapshot that no receipt can be made of.
  lemma SuccessorNeedsReceipt(s: Snapshot, material: Revision, ev: Evaluator)
    requires StartSuccessor(s, material, ev).Successor?
    ensures ev.version == ev.definition.evaluatorVersion && ev.policyDigest == PolicyDigest(ev.definition)
    ensures s.policyDigest == PolicyDigest(ev.definition)
    ensures ReceiptFromSnapshot(s, ev).Issued?
  {
    hide ReceiptFromSnapshot;
  }

  // A receipt is issued exactly for a terminal snapshot under the evaluator's policy whose
  // records, as many as its revision says, lead from the initial state to its own by declared
  // transitions, each under an id of its own; it carries the snapshot's fields and the digest
  // of them.
  lemma ReceiptIssuedIff(s: Snapshot, ev: Evaluator)
    ensures var d, h := ev.definition, s.history;
      ReceiptFromSnapshot(s, ev).Issued? <==>
      && s.revision == |h| && s.generation >= 0 && (forall k :: 0 <= k < |h| ==> h[k].policyDigest == s.policyDigest)
      && ev.version == d.evaluatorVersion && ev.policyDigest == PolicyDigest(d) && s.policyDigest == PolicyDigest(d)
      && s.state in d.completion.terminalStates
      && s.state == (if h == [] then d.initialState else h[|h| - 1].target)
      && LeadsFrom(d.initialState, h)
      && (forall k :: 0 <= k < |h| ==> Declares(d, h[k]))
      && (forall i, j :: 0 <= i < j < |h| ==> h[i].eventId != h[j].eventId)
    ensures ReceiptFromSnapshot(s, ev).Issued? ==>
      var body := ReceiptBody("ouroboros-receipt/v1", s.workflowId, s.material, s.generation, s.revision, s.state,
                              s.policyDigest, s.history);
      ReceiptFromSnapshot(s, ev).receipt == ProtocolReceipt(body, ContentDigest(body))
  {
    ChainIff(ev.definition.initialState, s.history);
    NoHistoryErrorsIff(s.state, s.history, ev.definition);
    assert s.history == [] ==> Contiguous(s.history);
    hide HistoryErrors, Declares, Contiguous, LeadsFrom;
  }

  lemma NoHistoryErrorsIff(state: string, h: seq<Record>, d: Definition)
    ensures HistoryErrors(state, h, d) == [] <==>
      && (h == [] ==> state == d.initialState)
      && (h != [] ==> h[0].source == d.initialState)
      && forall k :: 0 <= k < |h| ==> Declares(d, h[k])
  {
    forall k | 0 <= k < |h| ensures Declares(d, h[k]) <==> DeclaredTransition(d, h[k]) {
      DeclaresIff(d, h[k]);
    }
    hide DeclaredTransition, Declares;
    if forall k :: 0 <= k < |h| ==> DeclaredTransition(d, h[k]) {
      assert forall r :: r in h ==> DeclaredTransition(d, r);
    } else {
      var k :| 0 <= k < |h| && !DeclaredTransition(d, h[k]);
      assert h[k] in h;
    }
  }

  // Each record starts where the one before it ended, the first at `initial`.
  ghost predicate LeadsFrom(initial: string, h: seq<Record>) {
    && (h != [] ==> h[0].source == initial)
    && forall i, k :: 0 <= i < k < |h| && k == i + 1 ==> h[k].source == h[i].target
  }

  lemma ChainIff(initial: string, h: seq<Record>)
    ensures LeadsFrom(initial, h) <==> Contiguous(h) && (h != [] ==> h[0].source == initial)
  {
  }

  ghost predicate Declares(d: Definition, r: Record) {
    exists i :: 0 <= i < |d.transitions| && d.transitions[i].source == r.source
                && d.transitions[i].event == r.kind && d.transitions[i].target == r.target
  }

  lemma DeclaresIff(d: Definition, r: Record)
    ensures Declares(d, r) <==> DeclaredTransition(d, r)
  {
    if DeclaredTransition(d, r) {
      var t :| t in d.transitions && (r.source, r.kind, r.target) == (t.source, t.event, t.target);
      var i :| 0 <= i < |d.transitions| && d.transitions[i] == t;
    }
    if Declares(d, r) {
      var i :| 0 <= i < |d.transitions| && d.transitions[i].source == r.source
               && d.transitions[i].event == r.kind && d.transitions[i].target == r.target;
      DeclaredByIndex(d, r, i);
    }
  }

  // The final snapshots of a lineage: each the end of a run from the first snapshot of
  // its generation, each but the first started from the one before it.
  ghost predicate Lineage(ev: Evaluator, budget: Budget, finals: seq<Snapshot>) {
    && (finals != [] ==> RunsFrom(ev, finals[0], 0, budget))
    && forall k :: 0 <= k < |finals| - 1 ==> Succeeds(ev, finals[k], finals[k + 1])
  }

  ghost predicate RunsFrom(ev: Evaluator, s: Snapshot, generation: int, budget: Budget) {
    exists w: string, m: Revision, es: seq<Event> ::
      s == Run(Initial(w, m, ev.definition, budget, generation), es, ev)
  }

  ghost predicate Succeeds(ev: Evaluator, s: Snapshot, t: Snapshot) {
    exists m: Revision, es: seq<Event> ::
      StartSuccessor(s, m, ev).Successor? && t == Run(StartSuccessor(s, m, ev).snapshot, es, ev)
  }

  function AcceptedEvents(finals: seq<Snapshot>): int {
    if finals == [] then 0
    else AcceptedEvents(finals[..|finals| - 1]) + |finals[|finals| - 1].history|
  }

  // Along a lineage the generation counts up and the budget stays.
  lemma {:induction false} LineageKeepsPath(ev: Evaluator, budget: Budget, finals: seq<Snapshot>, k: nat)
    requires Lineage(ev, budget, finals) && k < |finals|
    requires 1 <= budget.maxSteps && 1 <= budget.maxGenerations
    ensures OnPath(ev.definition, finals[k]) && finals[k].generation == k && finals[k].budget == budget
  {
    if k == 0 {
      var w: string, m: Revision, es: seq<Event> :|
        finals[0] == Run(Initial(w, m, ev.definition, budget, 0), es, ev);
      InitialIsOnPath(w, m, ev.definition, budget, 0);
      RunKeepsPath(Initial(w, m, ev.definition, budget, 0), es, ev);
    } else {
      LineageKeepsPath(ev, budget, finals, k - 1);
      var s := finals[k - 1];
      assert Succeeds(ev, s, finals[k - 1 + 1]);
      var m: Revision, es: seq<Event> :|
        StartSuccessor(s, m, ev).Successor? && finals[k] == Run(StartSuccessor(s, m, ev).snapshot, es, ev);
      InitialIsOnPath(s.workflowId, m, ev.definition, budget, k);
      RunKeepsPath(StartSuccessor(s, m, ev).snapshot, es, ev);
    }
  }

  lemma {:induction false} AcceptedEventsBound(finals: seq<Snapshot>, maxSteps: int)
    requires forall k :: 0 <= k < |finals| ==> |finals[k].history| <= maxSteps
    ensures AcceptedEvents(finals) <= |finals| * maxSteps
  {
    if finals != [] {
      AcceptedEventsBound(finals[..|finals| - 1], maxSteps);
    }
  }

  // A whole lineage accepts at most max_steps * max_generations events.
  lemma LineageIsBounded(ev: Evaluator, budget: Budget, finals: seq<Snapshot>)
    requires Lineage(ev, budget, finals) && 1 <= budget.maxSteps && 1 <= budget.maxGenerations
    ensures |finals| <= budget.maxGenerations
    ensures AcceptedEvents(finals) <= budget.maxSteps * budget.maxGenerations
  {
    forall k | 0 <= k < |finals| ensures |finals[k].history| <= budget.maxSteps && k < budget.maxGenerations {
      LineageKeepsPath(ev, budget, finals, k);
    }
    AcceptedEventsBound(finals, budget.maxSteps);
    if finals != [] { assert |finals| - 1 < budget.maxGenerations; }
    ProductMonotone(|finals|, budget.maxGenerations, budget.maxSteps);
  }

  lemma ProductMonotone(a: int, b: int, c: int)
    requires a <= b && c >= 0
    ensures a * c <= c * b
  {
  }
}
