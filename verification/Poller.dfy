/**
 `poll_until_present` and `verify_gate`: the arrival loop over a scripted store, clock
 and sleeper, and what its verdicts mean.
 */
module Poller {
  import opened Options
  import opened Events
  import opened GateKernel
  import opened EarlySettle

  datatype Polling = Polling(
    retries: nat, delay: real, backoff: real, maxDelay: real, confirmRounds: nat, confirmDelayS: real)
  {
    // What `PollingSettings` insists on.
    predicate Valid() {
      retries >= 1 && delay >= 0.0 && backoff >= 0.0 && maxDelay >= 0.0 && confirmDelayS >= 0.0
    }
  }

  function Power(b: real, n: nat): real {
    if n == 0 then 1.0 else b * Power(b, n - 1)
  }

  function NextPollDelay(p: Polling, completed: nat, retryAfterS: Option<real>): real {
    var backedOff := p.delay * Power(p.backoff, if completed > 0 then completed - 1 else 0);
    var pause := if backedOff <= p.maxDelay then backedOff else p.maxDelay;
    if retryAfterS.Some? && retryAfterS.value > pause then retryAfterS.value else pause
  }

  datatype Outcome3 = IsPresent | IsAbsent | IsInconclusive

  datatype Settlement = IrrevocablePrefix | BoundedFinal

  datatype Body = Body(ok: bool, verdict: Outcome3, settlement: Settlement)

  // None, a verdict body, or an exception out of the evaluator.
  datatype Evaluation = KeepPolling | Terminal(body: Body) | Raised

  // (this read, whether any read so far was reachable, the attempt, final)
  type PrefixEvaluator = (Read, bool, nat, bool) -> Evaluation

  // The outside world: the answer to the n-th read, how many microseconds that read takes
  // with its evaluation and the n-th sleep overshoots, when polling starts, and the store's
  // declared blind window.
  datatype World = World(
    answer: nat -> Read, readUs: nat -> nat, overshoot: nat -> nat, startUs: int, visibilityUs: nat)

  function SleepMicros(seconds: real): (us: nat)
    ensures us as real >= seconds * 1000000.0
    ensures us > 0 ==> us as real < seconds * 1000000.0 + 1.0
  {
    var exact := seconds * 1000000.0;
    if exact <= 0.0 then 0
    else if exact == exact.Floor as real then exact.Floor
    else exact.Floor + 1
  }

  // Some read before the n-th reached the store.
  predicate Queried(w: World, n: nat) {
    exists k :: 0 <= k < n && w.answer(k).reachable
  }

  // When the k-th read is issued, had the run got that far.
  function At(p: Polling, w: World, k: nat): int
    decreases k, 0
  {
    if k == 0 then w.startUs
    else
      var before := DoneAt(p, w, k - 1);
      before + SleepMicros(PauseAfter(p, w, k - 1, before)) + w.overshoot(k - 1)
  }

  // When it has been read and evaluated.
  function DoneAt(p: Polling, w: World, k: nat): int
    decreases k, 1
  {
    At(p, w, k) + w.readUs(k)
  }

  // The pause asked for after read k, done at time `now`.
  function PauseAfter(p: Polling, w: World, k: nat, now: int): real {
    if k + 1 < p.retries then NextPollDelay(p, k + 1, w.answer(k).retryAfterS)
    else if k + 1 == p.retries && MustExtend(p, w, now) then
      (w.visibilityUs - (now - w.startUs)) as real / 1000000.0
    else p.confirmDelayS
  }

  // The budget is spent, the store has answered, and the wait is inside the blind window.
  predicate MustExtend(p: Polling, w: World, now: int) {
    Queried(w, p.retries) && w.visibilityUs - (now - w.startUs) > 0
  }

  predicate Extends(p: Polling, w: World)
    requires p.Valid()
  {
    MustExtend(p, w, DoneAt(p, w, p.retries - 1))
  }

  // How many reads precede the final evaluation.
  function Base(p: Polling, w: World): nat
    requires p.Valid()
  {
    p.retries + if Extends(p, w) then 1 else 0
  }

  // The attempt read k counts as: reads beyond the budget count as its last.
  function AttemptOf(p: Polling, k: nat): nat {
    if k < p.retries then k + 1 else p.retries
  }

  function Evaluate(ev: PrefixEvaluator, p: Polling, w: World, k: nat, final: bool): Evaluation {
    ev(w.answer(k), Queried(w, k + 1), AttemptOf(p, k), final)
  }

  datatype Outcome =
    | Settled(body: Body, attempts: nat, extended: bool, confirms: nat, fetches: nat)
    | Failed(fetches: nat)

  // A non-final evaluation settled the run.
  ghost predicate SettledOnPrefix(ev: PrefixEvaluator, p: Polling, w: World, o: Outcome)
    requires p.Valid()
  {
    && o.Settled? && o.confirms == 0 && 1 <= o.fetches
    && AllUndecided(ev, p, w, o.fetches - 1)
    && Evaluate(ev, p, w, o.fetches - 1, false) == Terminal(o.body)
    && (if o.extended then Extends(p, w) && o.fetches == p.retries + 1 && o.attempts == p.retries
        else o.fetches <= p.retries && o.attempts == o.fetches)
  }

  // The run went the whole way: every prefix undecided, then a final evaluation and, as
  // long as it is green, up to `confirm_rounds` further reads.
  ghost predicate SettledFinally(ev: PrefixEvaluator, p: Polling, w: World, o: Outcome)
    requires p.Valid()
  {
    var base := Base(p, w);
    && o.Settled? && o.extended == Extends(p, w) && o.attempts == p.retries
    && o.confirms <= p.confirmRounds && o.fetches == base + o.confirms
    && AllUndecided(ev, p, w, base)
    && (forall k :: base - 1 <= k < o.fetches - 1 ==> GreenAt(ev, p, w, k))
    && Evaluate(ev, p, w, o.fetches - 1, true) == Terminal(o.body)
    && (o.body.ok ==> o.confirms == p.confirmRounds)
  }

  ghost predicate GreenAt(ev: PrefixEvaluator, p: Polling, w: World, k: int) {
    k >= 0 &&
    var e := Evaluate(ev, p, w, k, true);
    e.Terminal? && e.body.ok
  }

  // The evaluator raised on a prefix.
  ghost predicate FailedOnPrefix(ev: PrefixEvaluator, p: Polling, w: World, o: Outcome)
    requires p.Valid()
  {
    && o.Failed? && 1 <= o.fetches <= Base(p, w)
    && AllUndecided(ev, p, w, o.fetches - 1)
    && Evaluate(ev, p, w, o.fetches - 1, false).Raised?
  }

  // The evaluator raised, or gave no verdict, when a final one was due.
  ghost predicate FailedFinally(ev: PrefixEvaluator, p: Polling, w: World, o: Outcome)
    requires p.Valid()
  {
    var base := Base(p, w);
    && o.Failed? && base <= o.fetches <= base + p.confirmRounds
    && AllUndecided(ev, p, w, base)
    && (forall k :: base - 1 <= k < o.fetches - 1 ==> GreenAt(ev, p, w, k))
    && !Evaluate(ev, p, w, o.fetches - 1, true).Terminal?
  }

  ghost predicate AllUndecided(ev: PrefixEvaluator, p: Polling, w: World, n: nat) {
    forall k :: 0 <= k < n ==> Evaluate(ev, p, w, k, false) == KeepPolling
  }

  ghost predicate PollSpec(ev: PrefixEvaluator, p: Polling, w: World, o: Outcome)
    requires p.Valid()
  {
    || SettledOnPrefix(ev, p, w, o)
    || SettledFinally(ev, p, w, o)
    || FailedOnPrefix(ev, p, w, o)
    || FailedFinally(ev, p, w, o)
  }

  ghost predicate EndsOnPrefix(ev: PrefixEvaluator, p: Polling, w: World, o: Outcome)
    requires p.Valid()
  {
    SettledOnPrefix(ev, p, w, o) || FailedOnPrefix(ev, p, w, o)
  }

  // A run does not read past a conclusive evaluation.
  lemma StopsWhenDecided(ev: PrefixEvaluator, p: Polling, w: World, o: Outcome, q: Outcome)
    requires p.Valid() && PollSpec(ev, p, w, o) && PollSpec(ev, p, w, q)
    ensures EndsOnPrefix(ev, p, w, o) ==> EndsOnPrefix(ev, p, w, q)
    ensures EndsOnPrefix(ev, p, w, o) == EndsOnPrefix(ev, p, w, q) ==> q.fetches <= o.fetches
  {
    hide Extends, At, DoneAt, Queried, Evaluate;
    var last := o.fetches - 1;
    assert EndsOnPrefix(ev, p, w, o) ==> Evaluate(ev, p, w, last, false) != KeepPolling;
    assert !EndsOnPrefix(ev, p, w, o) && GreenAt(ev, p, w, last) ==> o.fetches == Base(p, w) + p.confirmRounds;
  }

  // The loop has one outcome: evaluator, settings and world determine it.
  lemma OutcomeIsDetermined(ev: PrefixEvaluator, p: Polling, w: World, o: Outcome, q: Outcome)
    requires p.Valid() && PollSpec(ev, p, w, o) && PollSpec(ev, p, w, q)
    ensures o == q
  {
    hide Extends, At, DoneAt, Queried, Evaluate;
    StopsWhenDecided(ev, p, w, o, q);
    StopsWhenDecided(ev, p, w, q, o);
  }

  // Backend, clock and sleeper in one: sleeps last at least what is asked.
  class Session {
    const world: World
    var nowUs: int
    var fetches: nat
    var sleeps: nat

    constructor (world: World)
      ensures this.world == world && nowUs == world.startUs && fetches == 0 && sleeps == 0
    {
      this.world := world;
      nowUs, fetches, sleeps := world.startUs, 0, 0;
    }

    method Fetch() returns (read: Read)
      modifies this`fetches, this`nowUs
      ensures read == world.answer(old(fetches)) && fetches == old(fetches) + 1
      ensures nowUs == old(nowUs) + world.readUs(old(fetches))
    {
      read := world.answer(fetches);
      nowUs := nowUs + world.readUs(fetches);
      fetches := fetches + 1;
    }

    method Sleep(seconds: real)
      modifies this`nowUs, this`sleeps
      ensures nowUs == old(nowUs) + SleepMicros(seconds) + world.overshoot(old(sleeps))
      ensures sleeps == old(sleeps) + 1
    {
      nowUs := nowUs + SleepMicros(seconds) + world.overshoot(sleeps);
      sleeps := sleeps + 1;
    }
  }

  lemma QueriedStep(w: World, n: nat)
    ensures Queried(w, n + 1) <==> Queried(w, n) || w.answer(n).reachable
  {
  }

  lemma AtStep(p: Polling, w: World, k: nat)
    ensures At(p, w, k + 1) == DoneAt(p, w, k) + SleepMicros(PauseAfter(p, w, k, DoneAt(p, w, k))) + w.overshoot(k)
    ensures DoneAt(p, w, k) == At(p, w, k) + w.readUs(k)
  {
  }

  // The session stands right after its n-th read.
  ghost predicate AtRead(session: Session, p: Polling, n: nat)
    reads session
  {
    && n >= 1 && session.fetches == n && session.sleeps == n - 1
    && session.nowUs == DoneAt(p, session.world, n - 1)
  }

  // Sleep as the schedule says, read, and evaluate.
  method ReadNext(session: Session, ev: PrefixEvaluator, p: Polling, n: nat, pause: real, queried: bool, final: bool)
      returns (read: Read, queriedOk: bool, evaluation: Evaluation)
    requires AtRead(session, p, n) && queried == Queried(session.world, n)
    requires pause == PauseAfter(p, session.world, n - 1, session.nowUs)
    modifies session
    ensures AtRead(session, p, n + 1)
    ensures read == session.world.answer(n) && queriedOk == Queried(session.world, n + 1)
    ensures evaluation == Evaluate(ev, p, session.world, n, final)
  {
    AtStep(p, session.world, n - 1);
    AtStep(p, session.world, n);
    session.Sleep(pause);
    read := session.Fetch();
    QueriedStep(session.world, n);
    queriedOk := queried || read.reachable;
    evaluation := ev(read, queriedOk, AttemptOf(p, n), final);
  }

  method PollUntilPresent(session: Session, ev: PrefixEvaluator, p: Polling) returns (o: Outcome)
    requires p.Valid()
    requires session.fetches == session.sleeps == 0 && session.nowUs == session.world.startUs
    modifies session
    ensures PollSpec(ev, p, session.world, o)
    ensures AtRead(session, p, o.fetches)
  {
    hide Queried, At, DoneAt, PauseAfter, SettledOnPrefix, SettledFinally, FailedOnPrefix, FailedFinally;
    ghost var w := session.world;
    FirstRead(p, w);
    var last := session.Fetch();
    QueriedStep(w, 0);
    var queriedOk := last.reachable;
    var evaluation := ev(last, queriedOk, 1, false);
    var attempt := 1;
    while evaluation.KeepPolling? && attempt < p.retries
      invariant 1 <= attempt <= p.retries && AtRead(session, p, attempt)
      invariant last == w.answer(attempt - 1) && queriedOk == Queried(w, attempt)
      invariant evaluation == Evaluate(ev, p, w, attempt - 1, false) && AllUndecided(ev, p, w, attempt - 1)
    {
      OrdinaryPause(p, w, attempt, session.nowUs);
      last, queriedOk, evaluation :=
        ReadNext(session, ev, p, attempt, NextPollDelay(p, attempt, last.retryAfterS), queriedOk, false);
      attempt := attempt + 1;
    }
    if !evaluation.KeepPolling? {
      o := StopEarly(ev, p, session.world, evaluation, attempt, false);
      return;
    }
    // Blind-window guard.
    var extended := false;
    var remainingUs := session.world.visibilityUs - (session.nowUs - session.world.startUs);
    assert MustExtend(p, w, session.nowUs) <==> queriedOk && remainingUs > 0;
    if queriedOk && remainingUs > 0 {
      extended := true;
      GuardPause(p, w, session.nowUs);
      last, queriedOk, evaluation :=
        ReadNext(session, ev, p, attempt, remainingUs as real / 1000000.0, queriedOk, false);
      if !evaluation.KeepPolling? {
        o := StopEarly(ev, p, session.world, evaluation, attempt, true);
        return;
      }
    }
    o := FinishPolling(session, ev, p, last, queriedOk, extended);
  }

  lemma FirstRead(p: Polling, w: World)
    ensures DoneAt(p, w, 0) == w.startUs + w.readUs(0) && !Queried(w, 0)
  {
  }

  lemma OrdinaryPause(p: Polling, w: World, n: nat, now: int)
    requires 1 <= n < p.retries
    ensures PauseAfter(p, w, n - 1, now) == NextPollDelay(p, n, w.answer(n - 1).retryAfterS)
  {
  }

  lemma GuardPause(p: Polling, w: World, now: int)
    requires p.retries >= 1 && MustExtend(p, w, now)
    ensures PauseAfter(p, w, p.retries - 1, now) == (w.visibilityUs - (now - w.startUs)) as real / 1000000.0
  {
  }

  lemma ConfirmPause(p: Polling, w: World, n: nat)
    requires p.Valid() && n >= Base(p, w)
    ensures PauseAfter(p, w, n - 1, DoneAt(p, w, n - 1)) == p.confirmDelayS
  {
  }

  // Return the verdict the prefix settled, or let its exception out.
  method StopEarly(ev: PrefixEvaluator, p: Polling, w: World, evaluation: Evaluation, attempts: nat, extended: bool)
      returns (o: Outcome)
    requires p.Valid() && 1 <= attempts <= p.retries && !evaluation.KeepPolling?
    requires extended ==> Extends(p, w) && attempts == p.retries
    requires var n := if extended then attempts else attempts - 1;
      AllUndecided(ev, p, w, n) && Evaluate(ev, p, w, n, false) == evaluation
    ensures SettledOnPrefix(ev, p, w, o) || FailedOnPrefix(ev, p, w, o)
    ensures o.fetches == attempts + if extended then 1 else 0
  {
    var fetches := attempts + if extended then 1 else 0;
    if evaluation.Raised? {
      return Failed(fetches);
    }
    o := Settled(evaluation.body, attempts, extended, 0, fetches);
  }

  // The final evaluation and the anti-flap confirmation rounds.
  method FinishPolling(session: Session, ev: PrefixEvaluator, p: Polling, last: Read, queried: bool, extended: bool)
      returns (o: Outcome)
    requires p.Valid() && extended == Extends(p, session.world)
    requires var base := Base(p, session.world);
      && AtRead(session, p, base) && AllUndecided(ev, p, session.world, base)
      && last == session.world.answer(base - 1) && queried == Queried(session.world, base)
    modifies session
    ensures SettledFinally(ev, p, session.world, o) || FailedFinally(ev, p, session.world, o)
    ensures AtRead(session, p, o.fetches)
  {
    hide Queried, At, DoneAt, PauseAfter;
    ghost var w, base := session.world, session.fetches;
    var evaluation := ev(last, queried, p.retries, true);
    var confirms, queriedOk := 0, queried;
    while evaluation.Terminal? && evaluation.body.ok && confirms < p.confirmRounds
      invariant 0 <= confirms <= p.confirmRounds && AtRead(session, p, base + confirms)
      invariant queriedOk == Queried(w, base + confirms)
      invariant evaluation == Evaluate(ev, p, w, base + confirms - 1, true)
      invariant forall k :: base - 1 <= k < base + confirms - 1 ==> GreenAt(ev, p, w, k)
    {
      assert GreenAt(ev, p, w, base + confirms - 1);
      ConfirmPause(p, w, base + confirms);
      var read;
      read, queriedOk, evaluation :=
        ReadNext(session, ev, p, session.fetches, p.confirmDelayS, queriedOk, true);
      confirms := confirms + 1;
    }
    if !evaluation.Terminal? {
      return Failed(session.fetches);
    }
    o := Settled(evaluation.body, p.retries, extended, confirms, session.fetches);
  }

  // verify_gate --------------------------------------------------------------------

  // The evaluator `verify_gate` hands to the loop.
  function GateEvaluation(spec: Spec, settleEarly: bool, read: Read, final: bool): Evaluation {
    match Judge(spec, read)
    case None => Raised
    case Some(g) =>
      if !final then
        if settleEarly && SettledGreen(g) then Terminal(Body(true, IsPresent, IrrevocablePrefix)) else KeepPolling
      else
        var verdict :=
          if g.ok then IsPresent
          else if !g.reachable || !g.complete || !g.probeReachable then IsInconclusive
          else IsAbsent;
        Terminal(Body(g.ok, verdict, BoundedFinal))
  }

  function GateEvaluator(spec: Spec, settleEarly: bool): PrefixEvaluator {
    (read: Read, queried: bool, attempt: nat, final: bool) => GateEvaluation(spec, settleEarly, read, final)
  }

  method VerifyGate(session: Session, spec: Spec, p: Polling, settleEarly: bool) returns (o: Outcome)
    requires p.Valid()
    requires session.fetches == session.sleeps == 0 && session.nowUs == session.world.startUs
    modifies session
    ensures PollSpec(GateEvaluator(spec, settleEarly), p, session.world, o)
    ensures AtRead(session, p, o.fetches)
  {
    o := PollUntilPresent(session, GateEvaluator(spec, settleEarly), p);
  }

  // What the verdicts mean -----------------------------------------------------------

  // The loop reads at most retries + 1 + confirm_rounds times.
  lemma ReadsAreBounded(ev: PrefixEvaluator, p: Polling, w: World, o: Outcome)
    requires p.Valid() && PollSpec(ev, p, w, o)
    ensures 1 <= o.fetches <= p.retries + 1 + p.confirmRounds
  {
  }

  lemma {:induction false} TimePasses(p: Polling, w: World, j: nat, k: nat)
    requires j <= k
    ensures At(p, w, j) <= At(p, w, k) && DoneAt(p, w, j) <= DoneAt(p, w, k)
    ensures j < k ==> DoneAt(p, w, j) <= At(p, w, k)
  {
    AtStep(p, w, k);
    if j < k {
      hide At, DoneAt, PauseAfter;
      TimePasses(p, w, j, k - 1);
      AtStep(p, w, k - 1);
    }
  }

  // By the final evaluation of a store that answered, the blind window has passed; a read
  // made for the extension is issued after it.
  lemma BlindWindowHasPassed(p: Polling, w: World)
    requires p.Valid() && Queried(w, p.retries)
    ensures DoneAt(p, w, Base(p, w) - 1) - w.startUs >= w.visibilityUs
    ensures Extends(p, w) ==> At(p, w, p.retries) - w.startUs >= w.visibilityUs
  {
    hide Queried, At, DoneAt;
    AtStep(p, w, Base(p, w) - 1);
    if Extends(p, w) {
      GuardPause(p, w, DoneAt(p, w, p.retries - 1));
      AtStep(p, w, p.retries - 1);
    }
  }

  // The two evaluations of a read in terms of the gate verdict on it.
  lemma EvaluationShape(spec: Spec, early: bool, p: Polling, w: World, k: nat)
    ensures var j, prefix, final := Judge(spec, w.answer(k)),
        Evaluate(GateEvaluator(spec, early), p, w, k, false), Evaluate(GateEvaluator(spec, early), p, w, k, true);
      && (j.None? <==> prefix.Raised?) && (j.None? <==> final.Raised?)
      && (prefix.Terminal? <==> j.Some? && early && SettledGreen(j.value))
      && (prefix.Terminal? ==> prefix.body == Body(true, IsPresent, IrrevocablePrefix))
      && (j.Some? ==> final.Terminal? && final.body.settlement == BoundedFinal)
      && (j.Some? ==> final.body.ok == j.value.ok && (final.body.ok <==> final.body.verdict == IsPresent))
      && (j.Some? && final.body.verdict != IsInconclusive ==> w.answer(k).reachable && w.answer(k).complete)
  {
  }

  // A terminal outcome other than the prefix settlement comes from the full run.
  lemma FinalOutcome(spec: Spec, early: bool, p: Polling, w: World, o: Outcome)
    requires p.Valid() && PollSpec(GateEvaluator(spec, early), p, w, o)
    requires o.Settled? && o.body.settlement == BoundedFinal
    ensures SettledFinally(GateEvaluator(spec, early), p, w, o)
  {
    if o.fetches >= 1 { EvaluationShape(spec, early, p, w, o.fetches - 1); }
  }

  lemma FinalReadsReachedStore(spec: Spec, early: bool, p: Polling, w: World, o: Outcome)
    requires p.Valid() && SettledFinally(GateEvaluator(spec, early), p, w, o)
    requires o.body.verdict != IsInconclusive
    ensures w.answer(o.fetches - 1).reachable && w.answer(o.fetches - 1).complete
    ensures Queried(w, p.retries)
  {
    hide Judge, At, DoneAt, GateEvaluation;
    var ev, base := GateEvaluator(spec, early), Base(p, w);
    EvaluationShape(spec, early, p, w, o.fetches - 1);
    EvaluationShape(spec, early, p, w, base - 1);
    if o.confirms > 0 {
      assert GreenAt(ev, p, w, base - 1);
    }
    if !Extends(p, w) {
      assert w.answer(p.retries - 1).reachable;
    }
  }

  // `absent` is only concluded from a complete read, and after the blind window.
  lemma AbsentIsOutsideBlindWindow(spec: Spec, early: bool, p: Polling, w: World, o: Outcome)
    requires p.Valid() && PollSpec(GateEvaluator(spec, early), p, w, o)
    requires o.Settled? && o.body.verdict == IsAbsent
    ensures 1 <= o.fetches
    ensures w.answer(o.fetches - 1).reachable && w.answer(o.fetches - 1).complete
    ensures DoneAt(p, w, o.fetches - 1) - w.startUs >= w.visibilityUs
    ensures o.extended || o.confirms > 0 || w.readUs(o.fetches - 1) == 0 ==>
      At(p, w, o.fetches - 1) - w.startUs >= w.visibilityUs
  {
    hide Judge, At, DoneAt, GateEvaluation, Queried;
    if o.fetches >= 1 { EvaluationShape(spec, early, p, w, o.fetches - 1); }
    FinalReadsReachedStore(spec, early, p, w, o);
    BlindWindowHasPassed(p, w);
    TimePasses(p, w, Base(p, w) - 1, o.fetches - 1);
    AtStep(p, w, o.fetches - 1);
  }

  // Whether the last read behind an `absent` was also issued outside the window.
  ghost predicate IssuedOutside(spec: Spec, early: bool, p: Polling, w: World, o: Outcome) {
    p.Valid() && PollSpec(GateEvaluator(spec, early), p, w, o) && o.Settled? && o.body.verdict == IsAbsent ==>
      o.fetches >= 1 && At(p, w, o.fetches - 1) - w.startUs >= w.visibilityUs
  }

  ghost predicate AlwaysIssuedOutside(readUs: nat -> nat) {
    forall spec: Spec, early: bool, p: Polling, w: World, o: Outcome ::
      w.readUs == readUs ==> IssuedOutside(spec, early, p, w, o)
  }

  // The guard looks at the clock after the read, so a read that takes time may have been
  // issued inside the window. Every `absent` is issued outside exactly for stores that
  // answer at once.
  lemma AbsentIssuedOutsideIffInstant(readUs: nat -> nat)
    ensures AlwaysIssuedOutside(readUs) <==> forall k :: readUs(k) == 0
  {
    hide PollSpec, At;
    if forall k :: readUs(k) == 0 {
      forall spec: Spec, early: bool, p: Polling, w: World, o: Outcome | w.readUs == readUs
        ensures IssuedOutside(spec, early, p, w, o)
      {
        if p.Valid() && PollSpec(GateEvaluator(spec, early), p, w, o) && o.Settled? && o.body.verdict == IsAbsent {
          AbsentIsOutsideBlindWindow(spec, early, p, w, o);
        }
      }
    } else {
      var k :| readUs(k) != 0;
      var spec, p, w, o := SlowReadStartsInside(readUs, k);
      assert !IssuedOutside(spec, false, p, w, o);
    }
  }

  // A store with nothing in it, polled k + 1 times without pause, whose window closes while
  // the last read is under way.
  lemma SlowReadStartsInside(readUs: nat -> nat, k: nat) returns (spec: Spec, p: Polling, w: World, o: Outcome)
    requires readUs(k) > 0
    ensures w.readUs == readUs && p.Valid() && PollSpec(GateEvaluator(spec, false), p, w, o)
    ensures o.Settled? && o.body.verdict == IsAbsent && o.fetches >= 1
    ensures At(p, w, o.fetches - 1) - w.startUs < w.visibilityUs
  {
    spec := Spec([], None, Policy(false, false, false), None, _ => true);
    p := Polling(k + 1, 0.0, 0.0, 0.0, 0, 0.0);
    var read := Read(true, true, [], None, _ => Observation(true, false, true));
    var early := World(_ => read, readUs, _ => 0, 0, 0);
    EarlierTimesIgnoreWindow(p, early, early, k);
    w := early.(visibilityUs := At(p, early, k) + readUs(k));
    EarlierTimesIgnoreWindow(p, early, w, k);
    o := Settled(Body(false, IsAbsent, BoundedFinal), k + 1, false, 0, k + 1);
    AtStep(p, w, k);
    assert !Extends(p, w);
    EmptyGateIsAbsent(spec, read);
    forall j: nat ensures Evaluate(GateEvaluator(spec, false), p, w, j, false) == KeepPolling {
    }
    assert SettledFinally(GateEvaluator(spec, false), p, w, o);
  }

  lemma EmptyGateIsAbsent(spec: Spec, read: Read)
    requires spec.rules == [] && spec.threshold == None && read.reachable && read.complete
    ensures GateEvaluation(spec, false, read, false) == KeepPolling
    ensures GateEvaluation(spec, false, read, true) == Terminal(Body(false, IsAbsent, BoundedFinal))
  {
  }

  // Until the budget is spent the schedule does not depend on the blind window.
  lemma {:induction false} EarlierTimesIgnoreWindow(p: Polling, v: World, w: World, k: nat)
    requires w == v.(visibilityUs := w.visibilityUs) && k < p.retries
    ensures At(p, v, k) == At(p, w, k) >= v.startUs
  {
    if k > 0 {
      EarlierTimesIgnoreWindow(p, v, w, k - 1);
      AtStep(p, v, k - 1);
      AtStep(p, w, k - 1);
      OrdinaryPause(p, v, k, DoneAt(p, v, k - 1));
      OrdinaryPause(p, w, k, DoneAt(p, w, k - 1));
    }
  }

  // A `bounded_final` present was green on the final evaluation and on every one of the
  // confirm_rounds further reads.
  lemma FinalPresentIsConfirmed(spec: Spec, early: bool, p: Polling, w: World, o: Outcome, k: nat)
    requires p.Valid() && PollSpec(GateEvaluator(spec, early), p, w, o)
    requires o.Settled? && o.body.verdict == IsPresent && o.body.settlement == BoundedFinal
    requires Base(p, w) - 1 <= k < Base(p, w) + p.confirmRounds
    ensures o.fetches == Base(p, w) + p.confirmRounds
    ensures Judge(spec, w.answer(k)).Some? && Judge(spec, w.answer(k)).value.ok
  {
    hide Judge, At, DoneAt, GateEvaluation, Queried;
    FinalOutcome(spec, early, p, w, o);
    EvaluationShape(spec, early, p, w, o.fetches - 1);
    EvaluationShape(spec, early, p, w, k);
    if k < o.fetches - 1 {
      assert GreenAt(GateEvaluator(spec, early), p, w, k);
    }
  }

  lemma DefinednessIsFixed(spec: Spec, a: Read, b: Read)
    ensures Judge(spec, a).Some? <==> Judge(spec, b).Some?
  {
    var cs, ds := Checks(spec.rules, a), Checks(spec.rules, b);
    forall i | 0 <= i < |cs| ensures cs[i].Gating() == ds[i].Gating() && cs[i].weight == ds[i].weight {
      GatingIsFixed(spec.rules[i], i, a, b);
    }
    TotalIsFixed(cs, ds);
  }

  // Early settling refines full polling: wherever the early run settles an irrevocable
  // present, the full run of the same schedule ends present too. Only the reads the full
  // run may end on need to show the grown store; between them it may throttle or fail.
  lemma EarlySettleRefinesFullPolling(spec: Spec, p: Polling, w: World, early: Outcome, full: Outcome)
    requires p.Valid()
    requires PollSpec(GateEvaluator(spec, true), p, w, early)
    requires PollSpec(GateEvaluator(spec, false), p, w, full)
    requires early.Settled? && early.body.settlement == IrrevocablePrefix
    requires forall k :: early.fetches <= k && Base(p, w) - 1 <= k < Base(p, w) + p.confirmRounds ==>
      Grows(w.answer(early.fetches - 1), w.answer(k))
    ensures full.Settled? && full.body.ok && full.body.verdict == IsPresent
    ensures early.fetches <= full.fetches
  {
    hide Judge, At, DoneAt, GateEvaluation, Queried, Grows;
    var i := early.fetches - 1;
    var fullEv := GateEvaluator(spec, false);
    EvaluationShape(spec, true, p, w, i);
    FinalIsNotIrrevocable(spec, p, w, early);
    forall k: nat
      ensures Evaluate(fullEv, p, w, k, false) == KeepPolling && Evaluate(fullEv, p, w, k, true).Terminal?
    {
      DefinednessIsFixed(spec, w.answer(i), w.answer(k));
      EvaluationShape(spec, false, p, w, k);
    }
    assert SettledFinally(fullEv, p, w, full);
    var last := full.fetches - 1;
    EvaluationShape(spec, false, p, w, last);
    if last > i {
      SettledGreenIsIrrevocable(spec, w.answer(i), w.answer(last));
    }
  }

  lemma FinalIsNotIrrevocable(spec: Spec, p: Polling, w: World, o: Outcome)
    requires p.Valid() && PollSpec(GateEvaluator(spec, true), p, w, o)
    requires o.Settled? && o.body.settlement == IrrevocablePrefix
    ensures SettledOnPrefix(GateEvaluator(spec, true), p, w, o)
  {
    EvaluationShape(spec, true, p, w, o.fetches - 1);
  }
}
