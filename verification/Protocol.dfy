/** Values of the bounded protocol kernel: definitions, events, snapshots. */
module Protocol {
  import opened Options

  datatype Budget = Budget(maxSteps: int, maxGenerations: int)

  datatype Revision = Revision(namespaceName: string, value: string)

  datatype TransitionRule = TransitionRule(source: string, event: string, target: string, validator: Option<string>)

  datatype PayloadValidator = PayloadValidator(name: string, version: string)

  datatype CompletionPolicy = CompletionPolicy(
    version: string, terminalStates: seq<string>, requiredAuthorities: seq<string>, requiredArtifacts: seq<string>)

  datatype RecoveryPolicy = RecoveryPolicy(version: string, allowed: seq<(string, string)>)

  datatype Definition = Definition(
    name: string,
    version: string,
    evaluatorVersion: string,
    states: seq<string>,
    events: seq<string>,
    initialState: string,
    transitions: seq<TransitionRule>,
    completion: CompletionPolicy,
    recovery: RecoveryPolicy,
    validators: seq<PayloadValidator>)

  // Canonical JSON under SHA-256 with domain separation, as collision-free constructors.
  datatype Digest =
    | PolicyDigest(definition: Definition)
    | IntentDigest(eventId: string, kind: string, payload: string, policy: Digest)
    | ContentDigest(body: ReceiptBody)

  datatype Event = Event(id: string, kind: string, payload: string, policyDigest: Digest)

  function IntentOf(e: Event): Digest {
    IntentDigest(e.id, e.kind, e.payload, e.policyDigest)
  }

  datatype Record = Record(
    eventId: string, kind: string, source: string, target: string, intentDigest: Digest, policyDigest: Digest)

  datatype Snapshot = Snapshot(
    workflowId: string,
    material: Revision,
    generation: int,
    revision: int,
    state: string,
    policyDigest: Digest,
    budget: Budget,
    stepsUsed: int,
    history: seq<Record>)

  datatype ReceiptBody = ReceiptBody(
    schemaVersion: string,
    workflowId: string,
    material: Revision,
    generation: int,
    finalRevision: int,
    state: string,
    policyDigest: Digest,
    history: seq<Record>)

  predicate Unique<T(==)>(xs: seq<T>) {
    forall i, j :: 0 <= i < j < |xs| ==> xs[i] != xs[j]
  }

  predicate UniqueIds(history: seq<Record>) {
    forall i, j :: 0 <= i < j < |history| ==> history[i].eventId != history[j].eventId
  }

  predicate IsTerminal(d: Definition, state: string) {
    state in d.completion.terminalStates
  }

  // `_validate_references` and the uniqueness checks of the definition.
  predicate WellFormed(d: Definition) {
    && d.states != [] && Unique(d.states) && d.events != [] && Unique(d.events)
    && d.completion.terminalStates != [] && Unique(d.completion.terminalStates)
    && Unique(d.recovery.allowed)
    && d.initialState in d.states
    && (forall s :: s in d.completion.terminalStates ==> s in d.states)
    && (IsTerminal(d, d.initialState) ==>
          d.completion.requiredAuthorities == [] && d.completion.requiredArtifacts == [])
    && (forall i, j :: 0 <= i < j < |d.validators| ==> d.validators[i].name != d.validators[j].name)
    && (forall r :: r in d.transitions ==>
          r.source in d.states && r.target in d.states && r.event in d.events
          && (r.validator.Some? ==> exists v :: v in d.validators && v.name == r.validator.value))
    && (forall i, j :: 0 <= i < j < |d.transitions| ==>
          (d.transitions[i].source, d.transitions[i].event) != (d.transitions[j].source, d.transitions[j].event))
    && (forall a :: a in d.recovery.allowed ==> a.0 in d.states && a.1 in d.events)
  }

  // Records chain head to tail.
  predicate Contiguous(history: seq<Record>) {
    forall i :: 0 <= i < |history| - 1 ==> history[i].target == history[i + 1].source
  }

  // What the snapshot constructor insists on.
  predicate ValidSnapshot(s: Snapshot) {
    && 1 <= s.budget.maxSteps && 1 <= s.budget.maxGenerations
    && 0 <= s.generation < s.budget.maxGenerations
    && s.stepsUsed <= s.budget.maxSteps
    && s.revision == s.stepsUsed == |s.history|
    && UniqueIds(s.history)
    && (s.history != [] ==> s.history[|s.history| - 1].target == s.state)
    && Contiguous(s.history)
    && (forall r :: r in s.history ==> r.policyDigest == s.policyDigest)
  }

  function Initial(workflowId: string, material: Revision, d: Definition, budget: Budget, generation: int): Snapshot {
    Snapshot(workflowId, material, generation, 0, d.initialState, PolicyDigest(d), budget, 0, [])
  }
}
