/** Static reachability of a definition, and its exact agreement with the reducer. */
module Conformance {
  import opened Options
  import opened Protocol
  import opened Reducer

  // A walk along executable transitions from the initial state, given by their indexes.
  ghost predicate Route(d: Definition, route: seq<int>) {
    && (forall k :: 0 <= k < |route| ==> 0 <= route[k] < |d.transitions| && Executable(d, d.transitions[route[k]]))
    && (route != [] ==> d.transitions[route[0]].source == d.initialState)
    && (forall k :: 0 <= k < |route| - 1 ==> d.transitions[route[k]].target == d.transitions[route[k + 1]].source)
  }

  ghost function EndOf(d: Definition, route: seq<int>): string
    requires Route(d, route)
  {
    if route == [] then d.initialState else d.transitions[route[|route| - 1]].target
  }

  ghost predicate StaticallyReachable(d: Definition, state: string) {
    exists route :: Route(d, route) && EndOf(d, route) == state
  }

  // An evaluator that accepts every payload and always has the evidence asked for.
  function Permissive(d: Definition): Evaluator {
    Evaluator(d, d.evaluatorVersion, PolicyDigest(d), (name, version, payload) => Some(true),
              (version, payload) =>
                CompletionEvidence(true, d.completion.requiredAuthorities, d.completion.requiredArtifacts))
  }

  lemma {:induction false} RuleIsFound(rules: seq<TransitionRule>, i: int)
    requires 0 <= i < |rules|
    requires forall k, l :: 0 <= k < l < |rules| ==>
      (rules[k].source, rules[k].event) != (rules[l].source, rules[l].event)
    ensures FindRule(rules, rules[i].source, rules[i].event) == Some(rules[i])
  {
    if i > 0 {
      RuleIsFound(rules[1..], i - 1);
    }
  }

  lemma {:induction false} ValidatorIsFound(vs: seq<PayloadValidator>, name: string)
    requires exists v :: v in vs && v.name == name
    ensures FindValidator(vs, name).Some?
  {
    if vs[0].name != name {
      var v :| v in vs && v.name == name;
      assert v in vs[1..];
      ValidatorIsFound(vs[1..], name);
    }
  }

  // A fresh event that asks the reducer for transition i.
  ghost predicate Asks(d: Definition, i: int, s: Snapshot, e: Event)
    requires 0 <= i < |d.transitions|
  {
    s.stepsUsed < s.budget.maxSteps && s.state == d.transitions[i].source && e.kind == d.transitions[i].event
  }

  // What the reducer answers every such event, payload and evidence being in order.
  ghost predicate Answers(d: Definition, i: int, objection: Option<Code>)
    requires 0 <= i < |d.transitions|
  {
    forall s: Snapshot, e: Event :: Asks(d, i, s, e) ==> FreshObjection(s, e, Permissive(d)) == objection
  }

  lemma AnswerIsUnique(d: Definition, i: int, a: Option<Code>, b: Option<Code>)
    requires 0 <= i < |d.transitions| && Answers(d, i, a) && Answers(d, i, b)
    ensures a == b
  {
    var s := Initial("w", Revision("n", "v"), d, Budget(1, 1), 0).(state := d.transitions[i].source);
    var e := Event("e", d.transitions[i].event, "", PolicyDigest(d));
    assert Asks(d, i, s, e);
  }

  lemma AnswerOf(d: Definition, i: int)
    requires WellFormed(d) && 0 <= i < |d.transitions|
    ensures var t := d.transitions[i];
      Answers(d, i, if IsTerminal(d, t.source) then Some(TerminalState)
                    else if RecoveryDenied(d, t.source, t.event) then Some(RecoveryPolicyDenied) else None)
  {
    var t := d.transitions[i];
    assert t in d.transitions;
    RuleIsFound(d.transitions, i);
    if t.validator.Some? { ValidatorIsFound(d.validators, t.validator.value); }
    hide FindRule, FindValidator, RecoveryDenied, WellFormed;
  }

  // The classes are the reducer's three answers.
  lemma ClassesAreAnswers(d: Definition, i: int)
    requires WellFormed(d) && 0 <= i < |d.transitions|
    ensures var t := d.transitions[i];
      && (IsTerminal(d, t.source) <==> Answers(d, i, Some(TerminalState)))
      && (!IsTerminal(d, t.source) && RecoveryDenied(d, t.source, t.event)
          <==> Answers(d, i, Some(RecoveryPolicyDenied)))
      && (Executable(d, t) <==> Answers(d, i, None))
  {
    hide Answers, RecoveryDenied, IsTerminal, WellFormed;
    var t := d.transitions[i];
    var answer := if IsTerminal(d, t.source) then Some(TerminalState)
                  else if RecoveryDenied(d, t.source, t.event) then Some(RecoveryPolicyDenied) else None;
    AnswerOf(d, i);
    forall other | Answers(d, i, other) ensures other == answer { AnswerIsUnique(d, i, other, answer); }
  }

  // `_transition_classes`: on a well-formed definition they say what the reducer answers.
  method TransitionClasses(d: Definition) returns (terminal: set<int>, denied: set<int>, executable: seq<int>)
    ensures forall i :: i in terminal ==> 0 <= i < |d.transitions|
    ensures forall i :: i in denied ==> 0 <= i < |d.transitions|
    ensures forall i :: 0 <= i < |d.transitions| ==> (i in terminal <==> IsTerminal(d, d.transitions[i].source))
    ensures forall i :: 0 <= i < |d.transitions| ==>
      (i in denied <==> i !in terminal && RecoveryDenied(d, d.transitions[i].source, d.transitions[i].event))
    ensures forall i :: i in executable <==> 0 <= i < |d.transitions| && Executable(d, d.transitions[i])
    ensures forall i, j :: 0 <= i < j < |executable| ==> executable[i] < executable[j]
    ensures WellFormed(d) ==> forall i :: 0 <= i < |d.transitions| ==>
      && (i in terminal <==> Answers(d, i, Some(TerminalState)))
      && (i in denied <==> Answers(d, i, Some(RecoveryPolicyDenied)))
      && (i in executable <==> Answers(d, i, None))
  {
    hide Answers, RecoveryDenied, IsTerminal, WellFormed;
    terminal := set i | 0 <= i < |d.transitions| && IsTerminal(d, d.transitions[i].source);
    denied := set i | 0 <= i < |d.transitions| && !IsTerminal(d, d.transitions[i].source)
                      && RecoveryDenied(d, d.transitions[i].source, d.transitions[i].event);
    executable := [];
    for i := 0 to |d.transitions|
      invariant forall k :: k in executable <==> 0 <= k < i && Executable(d, d.transitions[k])
      invariant forall k :: 0 <= k < |executable| ==> executable[k] < i
      invariant forall k, l :: 0 <= k < l < |executable| ==> executable[k] < executable[l]
    {
      if i !in terminal && i !in denied {
        executable := executable + [i];
      }
    }
    hide Executable;
    if WellFormed(d) {
      forall i | 0 <= i < |d.transitions|
        ensures i in terminal <==> Answers(d, i, Some(TerminalState))
        ensures i in denied <==> Answers(d, i, Some(RecoveryPolicyDenied))
        ensures i in executable <==> Answers(d, i, None)
      {
        ClassesAreAnswers(d, i);
      }
    }
  }

  lemma ExtendRoute(d: Definition, state: string, i: int)
    requires StaticallyReachable(d, state)
    requires 0 <= i < |d.transitions| && Executable(d, d.transitions[i]) && d.transitions[i].source == state
    ensures StaticallyReachable(d, d.transitions[i].target)
  {
    var route :| Route(d, route) && EndOf(d, route) == state;
    var longer := route + [i];
    assert Route(d, longer) && EndOf(d, longer) == d.transitions[i].target;
  }

  // A set closed under executable transitions contains the end of every route.
  lemma {:induction false} RoutesStayInside(d: Definition, states: set<string>, route: seq<int>)
    requires d.initialState in states && Route(d, route)
    requires forall i ::
               0 <= i < |d.transitions| && Executable(d, d.transitions[i]) && d.transitions[i].source in states
               ==> d.transitions[i].target in states
    ensures EndOf(d, route) in states
  {
    if route != [] {
      RoutesStayInside(d, states, route[..|route| - 1]);
    }
  }

  predicate IndexesExecutable(d: Definition, executable: seq<int>) {
    forall i :: i in executable ==> 0 <= i < |d.transitions| && Executable(d, d.transitions[i])
  }

  // The first k listed transitions lead nowhere new.
  predicate ClosedUpTo(d: Definition, executable: seq<int>, reachable: set<string>, k: int)
    requires IndexesExecutable(d, executable)
  {
    forall l :: 0 <= l < |executable| && l < k ==>
      var i := executable[l];
      assert i in executable;
      d.transitions[i].source in reachable ==> d.transitions[i].target in reachable
  }

  // One pass of the fixpoint loop.
  method GrowOnce(d: Definition, executable: seq<int>, before: set<string>)
      returns (reachable: set<string>, changed: bool)
    requires IndexesExecutable(d, executable)
    requires forall s :: s in before ==> StaticallyReachable(d, s)
    ensures before <= reachable && (changed ==> before < reachable)
    ensures !changed ==> reachable == before && ClosedUpTo(d, executable, reachable, |executable|)
    ensures forall s :: s in reachable ==> StaticallyReachable(d, s)
  {
    hide StaticallyReachable, Executable;
    reachable, changed := before, false;
    for k := 0 to |executable|
      invariant before <= reachable && (changed ==> before < reachable)
      invariant !changed ==> reachable == before && ClosedUpTo(d, executable, reachable, k)
      invariant forall s :: s in reachable ==> StaticallyReachable(d, s)
    {
      var i := executable[k];
      assert i in executable;
      var rule := d.transitions[i];
      if rule.source in reachable && rule.target !in reachable {
        ExtendRoute(d, rule.source, i);
        reachable := reachable + {rule.target};
        changed := true;
      }
    }
  }

  lemma ReachableStatesAreDeclared(d: Definition, state: string)
    requires WellFormed(d) && StaticallyReachable(d, state)
    ensures state in d.states
  {
    var route :| Route(d, route) && EndOf(d, route) == state;
    if route != [] {
      assert d.transitions[route[|route| - 1]] in d.transitions;
    }
  }

  // `_reachable_states`: grow the set until a whole pass adds nothing.
  method ReachableStates(d: Definition, executable: seq<int>) returns (reachable: set<string>)
    requires WellFormed(d)
    requires forall i :: i in executable <==> 0 <= i < |d.transitions| && Executable(d, d.transitions[i])
    ensures forall s :: s in reachable <==> StaticallyReachable(d, s)
  {
    ghost var all := set s | s in d.states;
    assert forall s :: StaticallyReachable(d, s) ==> s in all by {
      forall s | StaticallyReachable(d, s) ensures s in all { ReachableStatesAreDeclared(d, s); }
    }
    assert StaticallyReachable(d, d.initialState) by {
      assert Route(d, []) && EndOf(d, []) == d.initialState;
    }
    hide StaticallyReachable, Executable, WellFormed;
    reachable := {d.initialState};
    var changed := true;
    while changed
      invariant d.initialState in reachable
      invariant forall s :: s in reachable ==> StaticallyReachable(d, s)
      invariant !changed ==> ClosedUpTo(d, executable, reachable, |executable|)
      decreases all - reachable, changed
    {
      ghost var before := reachable;
      reachable, changed := GrowOnce(d, executable, reachable);
      assert changed ==> all - reachable < all - before by {
        if changed {
          var s :| s in reachable && s !in before;
          assert s in all - before && s !in all - reachable;
        }
      }
    }
    FixpointIsComplete(d, executable, reachable);
  }

  lemma FixpointIsComplete(d: Definition, executable: seq<int>, reachable: set<string>)
    requires forall i :: i in executable <==> 0 <= i < |d.transitions| && Executable(d, d.transitions[i])
    requires d.initialState in reachable && ClosedUpTo(d, executable, reachable, |executable|)
    ensures forall s :: StaticallyReachable(d, s) ==> s in reachable
  {
    forall i | 0 <= i < |d.transitions| && Executable(d, d.transitions[i]) && d.transitions[i].source in reachable
      ensures d.transitions[i].target in reachable
    {
      var l :| 0 <= l < |executable| && executable[l] == i;
    }
    forall s | StaticallyReachable(d, s) ensures s in reachable {
      var route :| Route(d, route) && EndOf(d, route) == s;
      RoutesStayInside(d, reachable, route);
    }
  }

  // Agreement with the reducer ---------------------------------------------------------

  // Some evaluator, budget and events drive the reducer from a first snapshot to the state.
  ghost predicate DynamicallyReachable(d: Definition, state: string) {
    exists ev: Evaluator, start: Snapshot, es: seq<Event> ::
      FirstSnapshot(d, start, ev) && Run(start, es, ev).state == state
  }

  ghost predicate FirstSnapshot(d: Definition, start: Snapshot, ev: Evaluator) {
    && ev.definition == d && Bound(ev)
    && 1 <= start.budget.maxSteps && 0 <= start.generation < start.budget.maxGenerations
    && start == Initial(start.workflowId, start.material, d, start.budget, start.generation)
  }

  // A history that follows the rules ends in a statically reachable state.
  lemma {:induction false} HistoryGivesRoute(d: Definition, history: seq<Record>)
    requires history != [] && history[0].source == d.initialState && Contiguous(history)
    requires forall r :: r in history ==> FromRule(d, r)
    ensures StaticallyReachable(d, history[|history| - 1].target)
  {
    var last := |history| - 1;
    if last == 0 {
      assert Route(d, []) && EndOf(d, []) == d.initialState;
    } else {
      HistoryGivesRoute(d, history[..last]);
    }
    assert FromRule(d, history[last]);
    var t :| t in d.transitions && Executable(d, t)
             && (history[last].source, history[last].kind, history[last].target) == (t.source, t.event, t.target);
    var i :| 0 <= i < |d.transitions| && d.transitions[i] == t;
    ExtendRoute(d, history[last].source, i);
  }

  lemma RunReachesStatically(d: Definition, start: Snapshot, es: seq<Event>, ev: Evaluator)
    requires FirstSnapshot(d, start, ev)
    ensures StaticallyReachable(d, Run(start, es, ev).state)
  {
    RunKeepsPath(start, es, ev);
    var s := Run(start, es, ev);
    if s.history == [] {
      assert Route(d, []) && EndOf(d, []) == d.initialState;
    } else {
      HistoryGivesRoute(d, s.history);
    }
  }

  // The permissive evaluator lets every executable transition fire.
  lemma ExecutableFires(d: Definition, s: Snapshot, e: Event, i: int)
    requires WellFormed(d) && s.policyDigest == e.policyDigest == PolicyDigest(d)
    requires 0 <= i < |d.transitions| && Executable(d, d.transitions[i])
    requires s.state == d.transitions[i].source && e.kind == d.transitions[i].event
    requires s.stepsUsed < s.budget.maxSteps && FindRecord(s.history, e.id).None?
    ensures Step(s, e, Permissive(d)) == Accepted(false, Advanced(s, e, d.transitions[i], PolicyDigest(d)))
  {
    var rule := d.transitions[i];
    assert rule in d.transitions;
    RuleIsFound(d.transitions, i);
    if rule.validator.Some? { ValidatorIsFound(d.validators, rule.validator.value); }
  }

  // The event a record speaks of, if its intent digest is that of such an event.
  function EventOf(r: Record): Event {
    Event(r.eventId, r.kind, if r.intentDigest.IntentDigest? then r.intentDigest.payload else "", r.policyDigest)
  }

  predicate Genuine(d: Definition, r: Record) {
    r.policyDigest == PolicyDigest(d) && r.intentDigest == IntentOf(EventOf(r))
  }

  // A history some run could have written.
  ghost predicate RunHistory(d: Definition, history: seq<Record>) {
    && UniqueIds(history) && Contiguous(history)
    && (history != [] ==> history[0].source == d.initialState)
    && (forall r :: r in history ==> FromRule(d, r) && Genuine(d, r))
  }

  function EventsOf(history: seq<Record>): (es: seq<Event>)
    ensures |es| == |history|
  {
    seq(|history|, k requires 0 <= k < |history| => EventOf(history[k]))
  }

  function WithHistory(start: Snapshot, history: seq<Record>): Snapshot {
    start.(revision := |history|, stepsUsed := |history|, history := history,
           state := if history == [] then start.state else history[|history| - 1].target)
  }

  lemma RecordFires(d: Definition, s: Snapshot, r: Record)
    requires WellFormed(d) && s.policyDigest == PolicyDigest(d) && FromRule(d, r) && Genuine(d, r)
    requires s.state == r.source && s.stepsUsed < s.budget.maxSteps
    requires forall x :: x in s.history ==> x.eventId != r.eventId
    ensures Step(s, EventOf(r), Permissive(d)).snapshot ==
              s.(state := r.target, revision := s.revision + 1, stepsUsed := s.stepsUsed + 1,
                 history := s.history + [r])
  {
    var t :| t in d.transitions && Executable(d, t) && (r.source, r.kind, r.target) == (t.source, t.event, t.target);
    var i :| 0 <= i < |d.transitions| && d.transitions[i] == t;
    ExecutableFires(d, s, EventOf(r), i);
  }

  // Replaying the events of such a history under the permissive evaluator writes it.
  lemma {:induction false} HistoryRuns(d: Definition, history: seq<Record>, start: Snapshot)
    requires WellFormed(d) && RunHistory(d, history) && |history| <= start.budget.maxSteps
    requires start == Initial(start.workflowId, start.material, d, start.budget, start.generation)
    ensures Run(start, EventsOf(history), Permissive(d)) == WithHistory(start, history)
  {
    hide WellFormed, Step, FromRule, Genuine;
    if history != [] {
      var last := |history| - 1;
      var before, r := history[..last], history[last];
      HistoryRuns(d, before, start);
      assert EventsOf(history) == EventsOf(before) + [EventOf(r)];
      RunConcat(start, EventsOf(before), [EventOf(r)], Permissive(d));
      var s := WithHistory(start, before);
      assert s.state == r.source by {
        if last > 0 { assert history[last - 1].target == history[last - 1 + 1].source; }
      }
      RecordFires(d, s, r);
      OneStepRun(s, EventOf(r), Permissive(d));
      assert before + [r] == history;
    }
  }

  // Pairwise different event ids.
  function IdOf(k: nat): string {
    seq(k + 1, _ => 'e')
  }

  function RecordFor(d: Definition, t: TransitionRule, k: nat): Record {
    Record(IdOf(k), t.event, t.source, t.target, IntentDigest(IdOf(k), t.event, "{}", PolicyDigest(d)), PolicyDigest(d))
  }

  function RouteHistory(d: Definition, route: seq<int>): (h: seq<Record>)
    requires forall k :: 0 <= k < |route| ==> 0 <= route[k] < |d.transitions|
    ensures |h| == |route|
  {
    seq(|route|, k requires 0 <= k < |route| => RecordFor(d, d.transitions[route[k]], k))
  }

  lemma RouteHistoryIsRunHistory(d: Definition, route: seq<int>)
    requires Route(d, route)
    ensures RunHistory(d, RouteHistory(d, route))
  {
    var h := RouteHistory(d, route);
    forall i, j | 0 <= i < j < |h| ensures h[i].eventId != h[j].eventId {
      assert |IdOf(i)| != |IdOf(j)|;
    }
    forall r | r in h ensures FromRule(d, r) && Genuine(d, r) {
      var k :| 0 <= k < |h| && h[k] == r;
      assert d.transitions[route[k]] in d.transitions;
    }
  }

  lemma OneStepRun(s: Snapshot, e: Event, ev: Evaluator)
    ensures Run(s, [e], ev) == Step(s, e, ev).snapshot
  {
    assert [e][1..] == [];
  }

  // The analysis agrees exactly with the reducer.
  lemma StaticIffDynamic(d: Definition, state: string)
    requires WellFormed(d)
    ensures StaticallyReachable(d, state) <==> DynamicallyReachable(d, state)
  {
    if StaticallyReachable(d, state) {
      var route :| Route(d, route) && EndOf(d, route) == state;
      var start := Initial("w", Revision("n", "v"), d, Budget(|route| + 1, 1), 0);
      RouteHistoryIsRunHistory(d, route);
      HistoryRuns(d, RouteHistory(d, route), start);
      assert FirstSnapshot(d, start, Permissive(d));
    }
    if DynamicallyReachable(d, state) {
      var ev: Evaluator, start: Snapshot, es: seq<Event> :|
        FirstSnapshot(d, start, ev) && Run(start, es, ev).state == state;
      RunReachesStatically(d, start, es, ev);
    }
  }

  // Some run takes transition i.
  ghost predicate Fires(d: Definition, i: int)
    requires 0 <= i < |d.transitions|
  {
    exists ev: Evaluator, start: Snapshot, es: seq<Event>, r: Record ::
      FirstSnapshot(d, start, ev) && r in Run(start, es, ev).history && Takes(d, i, r)
  }

  predicate Takes(d: Definition, i: int, r: Record)
    requires 0 <= i < |d.transitions|
  {
    r.source == d.transitions[i].source && r.kind == d.transitions[i].event
  }

  lemma RecordSourceIsReachable(d: Definition, history: seq<Record>, k: nat)
    requires k < |history| && history[0].source == d.initialState && Contiguous(history)
    requires forall r :: r in history ==> FromRule(d, r)
    ensures StaticallyReachable(d, history[k].source)
  {
    if k == 0 {
      assert Route(d, []) && EndOf(d, []) == d.initialState;
    } else {
      assert forall r :: r in history[..k] ==> r in history;
      HistoryGivesRoute(d, history[..k]);
    }
  }

  lemma RouteThenFire(d: Definition, i: int, route: seq<int>)
    requires WellFormed(d) && 0 <= i < |d.transitions| && Executable(d, d.transitions[i])
    requires Route(d, route) && EndOf(d, route) == d.transitions[i].source
    ensures Fires(d, i)
  {
    var start := Initial("w", Revision("n", "v"), d, Budget(|route| + 2, 1), 0);
    var longer := route + [i];
    assert Route(d, longer);
    var history := RouteHistory(d, longer);
    RouteHistoryIsRunHistory(d, longer);
    HistoryRuns(d, history, start);
    assert history[|route|] in history && Takes(d, i, history[|route|]);
    assert FirstSnapshot(d, start, Permissive(d));
  }

  // The reported transitions are those some run takes.
  lemma ReachableTransitionIffFires(d: Definition, i: int)
    requires WellFormed(d) && 0 <= i < |d.transitions|
    ensures Executable(d, d.transitions[i]) && StaticallyReachable(d, d.transitions[i].source) <==> Fires(d, i)
  {
    hide WellFormed, Executable, OnPath, Run, Route;
    if Executable(d, d.transitions[i]) && StaticallyReachable(d, d.transitions[i].source) {
      var route :| Route(d, route) && EndOf(d, route) == d.transitions[i].source;
      RouteThenFire(d, i, route);
    }
    if Fires(d, i) {
      var ev: Evaluator, start: Snapshot, es: seq<Event>, r: Record :|
        FirstSnapshot(d, start, ev) && r in Run(start, es, ev).history && Takes(d, i, r);
      InitialIsOnPath(start.workflowId, start.material, d, start.budget, start.generation);
      RunKeepsPath(start, es, ev);
      FiredIsReachable(d, i, Run(start, es, ev), r);
    }
  }

  lemma FiredIsReachable(d: Definition, i: int, s: Snapshot, r: Record)
    requires WellFormed(d) && 0 <= i < |d.transitions| && OnPath(d, s) && r in s.history && Takes(d, i, r)
    ensures Executable(d, d.transitions[i]) && StaticallyReachable(d, d.transitions[i].source)
  {
    var k :| 0 <= k < |s.history| && s.history[k] == r;
    RecordSourceIsReachable(d, s.history, k);
    assert FromRule(d, r);
    var t :| t in d.transitions && Executable(d, t) && (r.source, r.kind, r.target) == (t.source, t.event, t.target);
    RuleIsUnique(d, i, t);
  }

  lemma RuleIsUnique(d: Definition, i: int, t: TransitionRule)
    requires WellFormed(d) && 0 <= i < |d.transitions| && t in d.transitions
    requires t.source == d.transitions[i].source && t.event == d.transitions[i].event
    ensures t == d.transitions[i]
  {
    var j :| 0 <= j < |d.transitions| && d.transitions[j] == t;
    assert !(i < j) && !(j < i);
  }

  // Findings ---------------------------------------------------------------------------

  datatype Finding =
    | TerminalOutgoingTransition(index: int)
    | RecoveryPairWithoutTransition(state: string, event: string)
    | RecoveryTransitionNotAllowlisted(index: int)
    | UnreachableState(state: string)
    | UnreachableTransition(index: int)

  datatype Report = Report(
    reachableStates: seq<string>,
    unreachableStates: seq<string>,
    reachableTransitions: seq<int>,
    findings: seq<Finding>)

  function Kept<T(!new)>(xs: seq<T>, keep: T -> bool): (r: seq<T>)
    ensures forall x :: x in r <==> x in xs && keep(x)
  {
    if xs == [] then []
    else (if keep(xs[0]) then [xs[0]] else []) + Kept(xs[1..], keep)
  }

  predicate Declared(d: Definition, pair: (string, string)) {
    exists r :: r in d.transitions && (r.source, r.event) == pair
  }

  function Indexes(n: nat): (r: seq<int>)
    ensures forall i :: i in r <==> 0 <= i < n
  {
    if n == 0 then [] else Indexes(n - 1) + [n - 1]
  }

  function TerminalFindings(at: seq<int>): (r: seq<Finding>)
    ensures |r| == |at|
    ensures forall x :: x in r <==> x.TerminalOutgoingTransition? && x.index in at
  {
    if at == [] then [] else [TerminalOutgoingTransition(at[0])] + TerminalFindings(at[1..])
  }

  function PairFindings(pairs: seq<(string, string)>): (r: seq<Finding>)
    ensures |r| == |pairs|
    ensures forall x :: x in r <==> x.RecoveryPairWithoutTransition? && (x.state, x.event) in pairs
  {
    if pairs == [] then []
    else [RecoveryPairWithoutTransition(pairs[0].0, pairs[0].1)] + PairFindings(pairs[1..])
  }

  function DeniedFindings(at: seq<int>): (r: seq<Finding>)
    ensures |r| == |at|
    ensures forall x :: x in r <==> x.RecoveryTransitionNotAllowlisted? && x.index in at
  {
    if at == [] then [] else [RecoveryTransitionNotAllowlisted(at[0])] + DeniedFindings(at[1..])
  }

  function StateFindings(states: seq<string>): (r: seq<Finding>)
    ensures |r| == |states|
    ensures forall x :: x in r <==> x.UnreachableState? && x.state in states
  {
    if states == [] then [] else [UnreachableState(states[0])] + StateFindings(states[1..])
  }

  function DeadFindings(at: seq<int>): (r: seq<Finding>)
    ensures |r| == |at|
    ensures forall x :: x in r <==> x.UnreachableTransition? && x.index in at
  {
    if at == [] then [] else [UnreachableTransition(at[0])] + DeadFindings(at[1..])
  }

  // In the order the source lists them.
  function Gathered(outgoing: seq<int>, missing: seq<(string, string)>, notAllowed: seq<int>, lost: seq<string>,
                    dead: seq<int>): seq<Finding> {
    TerminalFindings(outgoing) + PairFindings(missing) + DeniedFindings(notAllowed)
    + StateFindings(lost) + DeadFindings(dead)
  }

  // What each finding says of the definition and its runs.
  ghost predicate IsFinding(d: Definition, x: Finding) {
    match x
    case TerminalOutgoingTransition(i) => 0 <= i < |d.transitions| && IsTerminal(d, d.transitions[i].source)
    case RecoveryPairWithoutTransition(s, e) =>
      (s, e) in d.recovery.allowed && forall r :: r in d.transitions ==> r.source != s || r.event != e
    case RecoveryTransitionNotAllowlisted(i) => DeniedIndex(d, i)
    case UnreachableState(s) => s in d.states && !DynamicallyReachable(d, s)
    case UnreachableTransition(i) =>
      0 <= i < |d.transitions| && Executable(d, d.transitions[i]) && !Fires(d, i)
  }

  ghost predicate Rising(xs: seq<int>) {
    forall i, j :: 0 <= i < j < |xs| ==> xs[i] < xs[j]
  }

  lemma {:induction false} KeptKeepsRising(xs: seq<int>, keep: int -> bool)
    requires Rising(xs)
    ensures Rising(Kept(xs, keep))
  {
    if xs != [] {
      KeptKeepsRising(xs[1..], keep);
      var rest := Kept(xs[1..], keep);
      forall k | 0 <= k < |rest| ensures xs[0] < rest[k] {
        assert rest[k] in rest && rest[k] in xs[1..];
      }
    }
  }

  lemma {:induction false} RisingIsDetermined(a: seq<int>, b: seq<int>)
    requires Rising(a) && Rising(b) && forall i :: i in a <==> i in b
    ensures a == b
  {
    assert |a| > 0 ==> a[0] in a;
    assert |b| > 0 ==> b[0] in b;
    if a != [] {
      assert a[0] == b[0];
      forall i ensures i in a[1..] <==> i in b[1..] {
        assert i in a[1..] <==> i in a && i != a[0];
        assert i in b[1..] <==> i in b && i != b[0];
      }
      RisingIsDetermined(a[1..], b[1..]);
      assert a == [a[0]] + a[1..] && b == [b[0]] + b[1..];
    }
  }

  lemma {:induction false} IndexesRise(n: nat)
    ensures Rising(Indexes(n))
  {
    if n > 0 {
      IndexesRise(n - 1);
      var before := Indexes(n - 1);
      forall k | 0 <= k < |before| ensures before[k] < n - 1 { assert before[k] in before; }
    }
  }

  lemma {:induction false} KeptAgrees<T(!new)>(xs: seq<T>, f: T -> bool, g: T -> bool)
    requires forall x :: x in xs ==> f(x) == g(x)
    ensures Kept(xs, f) == Kept(xs, g)
  {
    if xs != [] {
      assert xs[0] in xs && forall x :: x in xs[1..] ==> x in xs;
      KeptAgrees(xs[1..], f, g);
    }
  }

  // The report in full: states and transitions in the order declared, findings by kind
  // and within each kind in that order.
  ghost predicate ReportsInOrder(d: Definition, r: Report) {
    var indexes := Indexes(|d.transitions|);
    && r.reachableStates == Kept(d.states, s => DynamicallyReachable(d, s))
    && r.unreachableStates == Kept(d.states, s => !DynamicallyReachable(d, s))
    && r.reachableTransitions == Kept(indexes, i => 0 <= i < |d.transitions| && Fires(d, i))
    && r.findings == Gathered(
         Kept(indexes, i => IsFinding(d, TerminalOutgoingTransition(i))),
         Kept(d.recovery.allowed, pair => !Declared(d, pair)),
         Kept(indexes, i => IsFinding(d, RecoveryTransitionNotAllowlisted(i))),
         Kept(d.states, s => !DynamicallyReachable(d, s)),
         Kept(indexes, i => IsFinding(d, UnreachableTransition(i))))
  }

  // Rising lists of indexes with the right members are the kept ones.
  lemma RisingIsKept(n: nat, xs: seq<int>, keep: int -> bool)
    requires Rising(xs) && forall i :: i in xs <==> 0 <= i < n && keep(i)
    ensures xs == Kept(Indexes(n), keep)
  {
    IndexesRise(n);
    KeptKeepsRising(Indexes(n), keep);
    RisingIsDetermined(xs, Kept(Indexes(n), keep));
  }

  // The tuples the source builds from its classes and the reachable states.
  function Analysis(d: Definition, terminal: set<int>, denied: set<int>, executable: seq<int>,
                    reachable: set<string>): Report
  {
    var all := Indexes(|d.transitions|);
    var outgoing := Kept(all, i => i in terminal);
    var missing := Kept(d.recovery.allowed, pair => !Declared(d, pair));
    var notAllowed := Kept(all, i => i in denied);
    var lost := Kept(d.states, s => s !in reachable);
    var dead := Kept(executable, i => 0 <= i < |d.transitions| && d.transitions[i].source !in reachable);
    var live := Kept(executable, i => 0 <= i < |d.transitions| && d.transitions[i].source in reachable);
    Report(Kept(d.states, s => s in reachable), lost, live, Gathered(outgoing, missing, notAllowed, lost, dead))
  }

  lemma AnalysisIsInOrder(d: Definition, terminal: set<int>, denied: set<int>, executable: seq<int>,
                          reachable: set<string>)
    requires forall i :: 0 <= i < |d.transitions| ==> (i in terminal <==> IsTerminal(d, d.transitions[i].source))
    requires forall i :: 0 <= i < |d.transitions| ==> (i in denied <==> DeniedIndex(d, i))
    requires forall i :: i in executable <==> 0 <= i < |d.transitions| && Executable(d, d.transitions[i])
    requires Rising(executable)
    requires forall s :: s in reachable <==> DynamicallyReachable(d, s)
    requires forall i :: 0 <= i < |d.transitions| ==>
               (Executable(d, d.transitions[i]) && d.transitions[i].source in reachable <==> Fires(d, i))
    ensures ReportsInOrder(d, Analysis(d, terminal, denied, executable, reachable))
  {
    hide DynamicallyReachable, Fires, Declared, Kept, Indexes, Gathered, Rising, Executable, IsTerminal, DeniedIndex;
    var n := |d.transitions|;
    KeptAgrees(d.states, s => s in reachable, s => DynamicallyReachable(d, s));
    KeptAgrees(d.states, s => s !in reachable, s => !DynamicallyReachable(d, s));
    KeptAgrees(Indexes(n), i => i in terminal, i => IsFinding(d, TerminalOutgoingTransition(i)));
    KeptAgrees(Indexes(n), i => i in denied, i => IsFinding(d, RecoveryTransitionNotAllowlisted(i)));
    DeadAndLiveInOrder(d, executable, reachable);
  }

  lemma DeadAndLiveInOrder(d: Definition, executable: seq<int>, reachable: set<string>)
    requires forall i :: i in executable <==> 0 <= i < |d.transitions| && Executable(d, d.transitions[i])
    requires Rising(executable)
    requires forall i :: 0 <= i < |d.transitions| ==>
               (Executable(d, d.transitions[i]) && d.transitions[i].source in reachable <==> Fires(d, i))
    ensures Kept(executable, i => 0 <= i < |d.transitions| && d.transitions[i].source !in reachable)
         == Kept(Indexes(|d.transitions|), i => IsFinding(d, UnreachableTransition(i)))
    ensures Kept(executable, i => 0 <= i < |d.transitions| && d.transitions[i].source in reachable)
         == Kept(Indexes(|d.transitions|), i => 0 <= i < |d.transitions| && Fires(d, i))
  {
    hide Fires, Kept, Indexes, Rising, Executable;
    var n := |d.transitions|;
    var unreached := i => 0 <= i < n && d.transitions[i].source !in reachable;
    var reached := i => 0 <= i < n && d.transitions[i].source in reachable;
    KeptKeepsRising(executable, unreached);
    KeptKeepsRising(executable, reached);
    RisingIsKept(n, Kept(executable, unreached), i => IsFinding(d, UnreachableTransition(i)));
    RisingIsKept(n, Kept(executable, reached), i => 0 <= i < n && Fires(d, i));
  }

  // `analyze_definition`: what the definition's runs can reach and fire, and every
  // finding that is true of it.
  method AnalyzeDefinition(d: Definition) returns (report: Report)
    requires WellFormed(d)
    ensures forall s :: s in report.reachableStates <==> s in d.states && DynamicallyReachable(d, s)
    ensures forall s :: s in report.unreachableStates <==> s in d.states && !DynamicallyReachable(d, s)
    ensures forall i :: i in report.reachableTransitions <==> 0 <= i < |d.transitions| && Fires(d, i)
    ensures forall x :: x in report.findings <==> IsFinding(d, x)
    ensures report.findings == [] <==> Conformant(d)
    ensures ReportsInOrder(d, report)
  {
    hide DynamicallyReachable, StaticallyReachable, WellFormed, Fires, Executable, RecoveryDenied, IsTerminal,
      Conformant, Declared, IsFinding, Answers, ReportsInOrder, Analysis;
    var terminal, denied, executable := TransitionClasses(d);
    var reachable := ReachableStates(d, executable);
    ReachableMeaning(d, reachable);
    AnalysisIsInOrder(d, terminal, denied, executable, reachable);
    report := Analysis(d, terminal, denied, executable, reachable);
    StatesMeaning(d, report);
    FindingsMeaning(d, report);
    NoFindingIffConformant(d, report.findings);
  }

  lemma StatesMeaning(d: Definition, r: Report)
    requires ReportsInOrder(d, r)
    ensures forall s :: s in r.reachableStates <==> s in d.states && DynamicallyReachable(d, s)
    ensures forall s :: s in r.unreachableStates <==> s in d.states && !DynamicallyReachable(d, s)
    ensures forall i :: i in r.reachableTransitions <==> 0 <= i < |d.transitions| && Fires(d, i)
  {
    hide DynamicallyReachable, Fires, Kept, Indexes, Gathered, IsFinding;
  }

  lemma ReachableMeaning(d: Definition, reachable: set<string>)
    requires WellFormed(d) && forall s :: s in reachable <==> StaticallyReachable(d, s)
    ensures forall s :: s in reachable <==> DynamicallyReachable(d, s)
    ensures forall i :: 0 <= i < |d.transitions| ==>
              (Executable(d, d.transitions[i]) && d.transitions[i].source in reachable <==> Fires(d, i))
  {
    hide WellFormed, StaticallyReachable, DynamicallyReachable, Fires, Executable;
    forall s ensures s in reachable <==> DynamicallyReachable(d, s) {
      StaticIffDynamic(d, s);
    }
    forall i | 0 <= i < |d.transitions|
      ensures Executable(d, d.transitions[i]) && d.transitions[i].source in reachable <==> Fires(d, i)
    {
      ReachableTransitionIffFires(d, i);
    }
  }

  // What it takes to have no finding.
  ghost predicate Conformant(d: Definition) {
    && (forall r :: r in d.transitions ==> Executable(d, r))
    && (forall a :: a in d.recovery.allowed ==> Declared(d, a))
    && (forall s :: s in d.states ==> DynamicallyReachable(d, s))
  }

  predicate DeniedIndex(d: Definition, i: int) {
    && 0 <= i < |d.transitions| && !IsTerminal(d, d.transitions[i].source)
    && RecoveryDenied(d, d.transitions[i].source, d.transitions[i].event)
  }

  // The findings of such a report are exactly those true of the definition and its runs.
  lemma FindingsMeaning(d: Definition, r: Report)
    requires ReportsInOrder(d, r)
    ensures forall x :: x in r.findings <==> IsFinding(d, x)
  {
    hide DynamicallyReachable, Fires, Executable, IsTerminal, Declared, Kept, Indexes, RecoveryDenied,
      TerminalFindings, PairFindings, DeniedFindings, StateFindings, DeadFindings;
    var indexes := Indexes(|d.transitions|);
    var outgoing := Kept(indexes, i => IsFinding(d, TerminalOutgoingTransition(i)));
    var missing := Kept(d.recovery.allowed, pair => !Declared(d, pair));
    var notAllowed := Kept(indexes, i => IsFinding(d, RecoveryTransitionNotAllowlisted(i)));
    var lost := Kept(d.states, s => !DynamicallyReachable(d, s));
    var dead := Kept(indexes, i => IsFinding(d, UnreachableTransition(i)));
    UndeclaredMeaning(d);
    forall x ensures x in r.findings <==> IsFinding(d, x) {
      assert x in r.findings <==> (x in TerminalFindings(outgoing) || x in PairFindings(missing)
                                   || x in DeniedFindings(notAllowed) || x in StateFindings(lost)
                                   || x in DeadFindings(dead));
    }
  }

  lemma UndeclaredMeaning(d: Definition)
    ensures forall s, e :: IsFinding(d, RecoveryPairWithoutTransition(s, e)) <==>
      (s, e) in d.recovery.allowed && !Declared(d, (s, e))
  {
    forall s, e
      ensures Declared(d, (s, e)) <==> exists r :: r in d.transitions && r.source == s && r.event == e
    {
      if r :| r in d.transitions && r.source == s && r.event == e { assert (r.source, r.event) == (s, e); }
    }
  }

  lemma NoFindingIffConformant(d: Definition, findings: seq<Finding>)
    requires WellFormed(d) && forall x :: x in findings <==> IsFinding(d, x)
    ensures findings == [] <==> Conformant(d)
  {
    UndeclaredMeaning(d);
    hide DynamicallyReachable, Fires, IsTerminal, Declared, RecoveryDenied;
    if findings == [] {
      forall x ensures !IsFinding(d, x) { assert x !in findings; }
      forall r | r in d.transitions ensures Executable(d, r) {
        var i :| 0 <= i < |d.transitions| && d.transitions[i] == r;
        assert !IsFinding(d, TerminalOutgoingTransition(i)) && !IsFinding(d, RecoveryTransitionNotAllowlisted(i));
      }
      forall a | a in d.recovery.allowed ensures Declared(d, a) {
        assert !IsFinding(d, RecoveryPairWithoutTransition(a.0, a.1)) && a == (a.0, a.1);
      }
      forall s | s in d.states ensures DynamicallyReachable(d, s) { assert !IsFinding(d, UnreachableState(s)); }
    } else {
      assert findings[0] in findings && IsFinding(d, findings[0]);
      FindingBreaksConformance(d, findings[0]);
    }
  }

  lemma FindingBreaksConformance(d: Definition, x: Finding)
    requires WellFormed(d) && IsFinding(d, x)
    ensures !Conformant(d)
  {
    UndeclaredMeaning(d);
    hide DynamicallyReachable, Fires, Declared;
    match x
    case TerminalOutgoingTransition(i) => assert d.transitions[i] in d.transitions;
    case RecoveryPairWithoutTransition(s, e) =>
    case RecoveryTransitionNotAllowlisted(i) => assert d.transitions[i] in d.transitions;
    case UnreachableState(s) =>
    case UnreachableTransition(i) =>
      assert d.transitions[i] in d.transitions;
      StaticIffDynamic(d, d.transitions[i].source);
      ReachableTransitionIffFires(d, i);
  }

  // The order of the report ---------------------------------------------------------------------

  // The entries of r are those of xs at the rising positions `at`.
  ghost predicate SitsAt<T>(xs: seq<T>, r: seq<T>, at: seq<int>) {
    && |at| == |r|
    && (forall i, j :: 0 <= i < j < |at| ==> at[i] < at[j])
    && forall i :: 0 <= i < |at| ==> 0 <= at[i] < |xs| && r[i] == xs[at[i]]
  }

  lemma SitsLater<T>(xs: seq<T>, r: seq<T>, rest: seq<int>, later: seq<int>)
    requires xs != [] && SitsAt(xs[1..], r, rest)
    requires |later| == |rest| && forall i :: 0 <= i < |rest| ==> later[i] == rest[i] + 1
    ensures SitsAt(xs, r, later) && SitsAt(xs, [xs[0]] + r, [0] + later)
  {
  }

  ghost predicate Chosen<T(!new)>(xs: seq<T>, keep: T -> bool, at: seq<int>) {
    forall p :: p in at <==> 0 <= p < |xs| && keep(xs[p])
  }

  lemma ChosenLater<T(!new)>(xs: seq<T>, keep: T -> bool, rest: seq<int>, later: seq<int>)
    requires xs != [] && Chosen(xs[1..], keep, rest)
    requires forall p :: p in later <==> p - 1 in rest
    ensures Chosen(xs, keep, if keep(xs[0]) then [0] + later else later)
  {
    forall p ensures p in later <==> 0 < p < |xs| && keep(xs[p]) {
      assert p in later <==> p - 1 in rest;
    }
  }

  // The kept entries are those at rising positions, which are all that are to be kept.
  lemma {:induction false} KeptPositions<T(!new)>(xs: seq<T>, keep: T -> bool) returns (at: seq<int>)
    ensures SitsAt(xs, Kept(xs, keep), at) && Chosen(xs, keep, at)
  {
    if xs == [] {
      at := [];
    } else {
      hide Kept, SitsAt, Chosen;
      var rest := KeptPositions(xs[1..], keep);
      var later := OneLater(rest);
      SitsLater(xs, Kept(xs[1..], keep), rest, later);
      ChosenLater(xs, keep, rest, later);
      KeptFromFirst(xs, keep);
      at := if keep(xs[0]) then [0] + later else later;
    }
  }

  lemma OneLater(rest: seq<int>) returns (later: seq<int>)
    ensures |later| == |rest| && forall i :: 0 <= i < |rest| ==> later[i] == rest[i] + 1
    ensures forall p :: p in later <==> p - 1 in rest
  {
    later := seq(|rest|, i requires 0 <= i < |rest| => rest[i] + 1);
    forall p | p - 1 in rest ensures p in later {
      var i :| 0 <= i < |rest| && rest[i] == p - 1;
      assert later[i] == p;
    }
  }

  lemma KeptFromFirst<T(!new)>(xs: seq<T>, keep: T -> bool)
    requires xs != []
    ensures Kept(xs, keep) == if keep(xs[0]) then [xs[0]] + Kept(xs[1..], keep) else Kept(xs[1..], keep)
  {
  }

  // The kinds of findings, in the order they are listed.
  function Kind(x: Finding): nat {
    match x
    case TerminalOutgoingTransition(_) => 0
    case RecoveryPairWithoutTransition(_, _) => 1
    case RecoveryTransitionNotAllowlisted(_) => 2
    case UnreachableState(_) => 3
    case UnreachableTransition(_) => 4
  }

  // The finding is about entry p of the definition's transitions, recovery pairs or states.
  ghost predicate IsAbout(d: Definition, x: Finding, p: int) {
    match x
    case TerminalOutgoingTransition(i) => i == p
    case RecoveryPairWithoutTransition(s, e) => 0 <= p < |d.recovery.allowed| && d.recovery.allowed[p] == (s, e)
    case RecoveryTransitionNotAllowlisted(i) => i == p
    case UnreachableState(s) => 0 <= p < |d.states| && d.states[p] == s
    case UnreachableTransition(i) => i == p
  }

  ghost predicate ListedBefore(d: Definition, x: Finding, y: Finding) {
    Kind(x) < Kind(y) || (Kind(x) == Kind(y) && exists p, q :: p < q && IsAbout(d, x, p) && IsAbout(d, y, q))
  }

  ghost predicate InOrder(d: Definition, xs: seq<Finding>, least: nat, most: nat) {
    && (forall i, j :: 0 <= i < j < |xs| ==> ListedBefore(d, xs[i], xs[j]))
    && (forall i :: 0 <= i < |xs| ==> least <= Kind(xs[i]) <= most)
  }

  lemma ConcatInOrder(d: Definition, xs: seq<Finding>, ys: seq<Finding>, least: nat, m: nat, n: nat, most: nat)
    requires InOrder(d, xs, least, m) && InOrder(d, ys, n, most) && least <= m < n <= most
    ensures InOrder(d, xs + ys, least, most)
  {
    hide ListedBefore;
    forall i, j | 0 <= i < j < |xs + ys| ensures ListedBefore(d, (xs + ys)[i], (xs + ys)[j]) {
      if i < |xs| <= j {
        assert Kind(xs[i]) < Kind(ys[j - |xs|]);
        LowerKindFirst(d, xs[i], ys[j - |xs|]);
      }
    }
  }

  lemma LowerKindFirst(d: Definition, x: Finding, y: Finding)
    requires Kind(x) < Kind(y)
    ensures ListedBefore(d, x, y)
  {
  }

  lemma {:induction false} IndexFindingAt(at: seq<int>, i: nat)
    requires i < |at|
    ensures TerminalFindings(at)[i] == TerminalOutgoingTransition(at[i])
    ensures DeniedFindings(at)[i] == RecoveryTransitionNotAllowlisted(at[i])
    ensures DeadFindings(at)[i] == UnreachableTransition(at[i])
  {
    if i > 0 { IndexFindingAt(at[1..], i - 1); }
  }

  lemma {:induction false} PairFindingAt(pairs: seq<(string, string)>, i: nat)
    requires i < |pairs|
    ensures PairFindings(pairs)[i] == RecoveryPairWithoutTransition(pairs[i].0, pairs[i].1)
  {
    if i > 0 { PairFindingAt(pairs[1..], i - 1); }
  }

  lemma {:induction false} StateFindingAt(states: seq<string>, i: nat)
    requires i < |states|
    ensures StateFindings(states)[i] == UnreachableState(states[i])
  {
    if i > 0 { StateFindingAt(states[1..], i - 1); }
  }

  // A list of findings of one kind about rising positions is in order.
  lemma RisingIsInOrder(d: Definition, xs: seq<Finding>, at: seq<int>, kind: nat)
    requires |at| == |xs| && (forall i, j :: 0 <= i < j < |at| ==> at[i] < at[j])
    requires forall i :: 0 <= i < |xs| ==> Kind(xs[i]) == kind && IsAbout(d, xs[i], at[i])
    ensures InOrder(d, xs, kind, kind)
  {
    forall i, j | 0 <= i < j < |xs| ensures ListedBefore(d, xs[i], xs[j]) {
      assert at[i] < at[j] && IsAbout(d, xs[i], at[i]) && IsAbout(d, xs[j], at[j]);
    }
  }

  lemma IndexFindingsInOrder(d: Definition, at: seq<int>)
    requires Rising(at)
    ensures InOrder(d, TerminalFindings(at), 0, 0)
    ensures InOrder(d, DeniedFindings(at), 2, 2)
    ensures InOrder(d, DeadFindings(at), 4, 4)
  {
    forall i: nat | i < |at|
      ensures TerminalFindings(at)[i] == TerminalOutgoingTransition(at[i])
      ensures DeniedFindings(at)[i] == RecoveryTransitionNotAllowlisted(at[i])
      ensures DeadFindings(at)[i] == UnreachableTransition(at[i])
    {
      IndexFindingAt(at, i);
    }
    hide TerminalFindings, DeniedFindings, DeadFindings;
    RisingIsInOrder(d, TerminalFindings(at), at, 0);
    RisingIsInOrder(d, DeniedFindings(at), at, 2);
    RisingIsInOrder(d, DeadFindings(at), at, 4);
  }

  lemma PairFindingsInOrder(d: Definition, pairs: seq<(string, string)>, at: seq<int>)
    requires SitsAt(d.recovery.allowed, pairs, at)
    ensures InOrder(d, PairFindings(pairs), 1, 1)
  {
    hide PairFindings, InOrder;
    forall i: nat | i < |pairs|
      ensures PairFindings(pairs)[i] == RecoveryPairWithoutTransition(pairs[i].0, pairs[i].1)
    {
      PairFindingAt(pairs, i);
    }
    RisingIsInOrder(d, PairFindings(pairs), at, 1);
  }

  lemma StateFindingsInOrder(d: Definition, states: seq<string>, at: seq<int>)
    requires SitsAt(d.states, states, at)
    ensures InOrder(d, StateFindings(states), 3, 3)
  {
    hide StateFindings, InOrder;
    forall i: nat | i < |states| ensures StateFindings(states)[i] == UnreachableState(states[i]) {
      StateFindingAt(states, i);
    }
    RisingIsInOrder(d, StateFindings(states), at, 3);
  }

  // The findings come by kind: transitions out of terminal states, recovery pairs without a
  // transition, transitions recovery does not allow, unreachable states, unreachable
  // transitions; within a kind in the order declared.
  lemma FindingsInOrder(d: Definition, r: Report)
    requires ReportsInOrder(d, r)
    ensures forall i, j :: 0 <= i < j < |r.findings| ==> ListedBefore(d, r.findings[i], r.findings[j])
  {
    hide DynamicallyReachable, Fires, IsFinding, Declared, Kept, Indexes, Rising,
      TerminalFindings, PairFindings, DeniedFindings, StateFindings, DeadFindings, InOrder, ListedBefore, SitsAt;
    var n, indexes := |d.transitions|, Indexes(|d.transitions|);
    IndexesRise(n);
    var outgoing := Kept(indexes, i => IsFinding(d, TerminalOutgoingTransition(i)));
    var missing := Kept(d.recovery.allowed, pair => !Declared(d, pair));
    var notAllowed := Kept(indexes, i => IsFinding(d, RecoveryTransitionNotAllowlisted(i)));
    var lost := Kept(d.states, s => !DynamicallyReachable(d, s));
    var dead := Kept(indexes, i => IsFinding(d, UnreachableTransition(i)));
    KeptKeepsRising(indexes, i => IsFinding(d, TerminalOutgoingTransition(i)));
    KeptKeepsRising(indexes, i => IsFinding(d, RecoveryTransitionNotAllowlisted(i)));
    KeptKeepsRising(indexes, i => IsFinding(d, UnreachableTransition(i)));
    IndexFindingsInOrder(d, outgoing);
    IndexFindingsInOrder(d, notAllowed);
    IndexFindingsInOrder(d, dead);
    var pairsAt := KeptPositions(d.recovery.allowed, pair => !Declared(d, pair));
    var statesAt := KeptPositions(d.states, s => !DynamicallyReachable(d, s));
    PairFindingsInOrder(d, missing, pairsAt);
    StateFindingsInOrder(d, lost, statesAt);
    var a, b, c := TerminalFindings(outgoing), PairFindings(missing), DeniedFindings(notAllowed);
    ConcatInOrder(d, a, b, 0, 0, 1, 1);
    ConcatInOrder(d, a + b, c, 0, 1, 2, 2);
    ConcatInOrder(d, a + b + c, StateFindings(lost), 0, 2, 3, 3);
    ConcatInOrder(d, a + b + c + StateFindings(lost), DeadFindings(dead), 0, 3, 4, 4);
    assert r.findings == a + b + c + StateFindings(lost) + DeadFindings(dead);
    InOrderMeans(d, r.findings);
  }

  lemma InOrderMeans(d: Definition, xs: seq<Finding>)
    requires InOrder(d, xs, 0, 4)
    ensures forall i, j :: 0 <= i < j < |xs| ==> ListedBefore(d, xs[i], xs[j])
  {
    hide ListedBefore;
  }
}
