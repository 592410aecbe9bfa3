/** When polling stops early, how it waits, and what its verdicts say, in plain terms. */
module PollerMeaning {
  import opened Options
  import opened Events
  import opened Rules
  import opened Monitors
  import opened LiveBank
  import opened Ltl3
  import opened GateKernel
  import opened GateMeaning
  import opened EarlySettle
  import opened Poller

  // Stopping early --------------------------------------------------------------------------

  // A met lower bound: a `>=` or `>` count, or presence on a read that is not empty.
  ghost predicate LowerBoundMet(r: Rule, events: seq<Event>) {
    && Holds(r, StreamSorted(events))
    && ((r.Count? && r.op in {Ge, Gt}) || (r.Present? && events != []))
  }

  // The gate is ok without a signature to wait for, and all that gates are met lower bounds.
  ghost predicate SettlesOn(spec: Spec, read: Read) {
    && Judge(spec, read).Some? && Judge(spec, read).value.ok
    && !spec.policy.requireSignature
    && forall i :: 0 <= i < |spec.rules| && Gates(spec.rules[i]) ==>
         spec.rules[i].kind.Kernel? && LowerBoundMet(spec.rules[i].kind.rule, read.events)
  }

  lemma SatIsMetBound(r: Rule, s: seq<Event>)
    requires !r.Order? && !Tautological(r)
    ensures Decide(r, s) == Sat <==> Holds(r, s) && ((r.Count? && r.op in {Ge, Gt}) || (r.Present? && s != []))
  {
  }

  lemma SatIsLowerBound(r: Rule, events: seq<Event>)
    requires !r.Order? && !Tautological(r)
    ensures Decide(r, StreamSorted(events)) == Sat <==> LowerBoundMet(r, events)
  {
    hide StreamSorted, Decide, Holds;
    SatIsMetBound(r, StreamSorted(events));
    assert StreamSorted(events) == [] <==> events == [] by {
      assert |multiset(StreamSorted(events))| == |multiset(events)|;
    }
  }

  lemma LatchedSatIff(g: GateRule, index: nat, read: Read)
    requires Gates(g)
    ensures var c := CheckOf(g, index, read);
      c.verdict == Some(Sat) && !c.mustOrder <==> g.kind.Kernel? && LowerBoundMet(g.kind.rule, read.events)
  {
    if g.kind.Kernel? && !g.kind.rule.Order? {
      var s := StreamSorted(read.events);
      LatchIsDecision(g.kind.rule, s, UpTo(|s|));
      SatIsLowerBound(g.kind.rule, read.events);
    }
    hide StreamSorted, Holds, Decide, LatchAfter, UpTo, Tautological;
  }

  lemma SettledGreenIff(spec: Spec, read: Read)
    requires Judge(spec, read).Some?
    ensures SettledGreen(Judge(spec, read).value) <==> SettlesOn(spec, read)
  {
    var cs := Checks(spec.rules, read);
    forall i | 0 <= i < |cs|
      ensures cs[i].Gating() <==> Gates(spec.rules[i])
      ensures Gates(spec.rules[i]) ==> (cs[i].verdict == Some(Sat) && !cs[i].mustOrder <==>
                spec.rules[i].kind.Kernel? && LowerBoundMet(spec.rules[i].kind.rule, read.events))
    {
      CheckMeaning(spec, read, i);
      if Gates(spec.rules[i]) { LatchedSatIff(spec.rules[i], i, read); }
    }
    hide CheckOf, Gates, LowerBoundMet, RequiredOutcome;
    assert Judge(spec, read).value.checks == cs;
  }

  // A prefix is conclusive exactly when it settles; only a spec without a verdict raises.
  lemma PrefixEvaluation(spec: Spec, early: bool, read: Read)
    ensures GateEvaluation(spec, early, read, false) ==
      if Judge(spec, read).None? then Raised
      else if early && SettlesOn(spec, read) then Terminal(Body(true, IsPresent, IrrevocablePrefix))
      else KeepPolling
  {
    if Judge(spec, read).Some? { SettledGreenIff(spec, read); }
    hide Judge, SettlesOn, SettledGreen;
  }

  // An early-settling run ends at the first read that settles, if the budget or the blind
  // window's extension lets it get there. No read before it can raise.
  lemma RunEndsAtFirstSettling(spec: Spec, p: Polling, w: World, o: Outcome, k: nat)
    requires p.Valid() && PollSpec(GateEvaluator(spec, true), p, w, o)
    requires k < p.retries || (k == p.retries && Extends(p, w))
    requires SettlesOn(spec, w.answer(k)) && forall j: nat :: j < k ==> !SettlesOn(spec, w.answer(j))
    ensures o == Settled(Body(true, IsPresent, IrrevocablePrefix), if k < p.retries then k + 1 else p.retries,
                         k == p.retries, 0, k + 1)
  {
    hide Judge, At, DoneAt, GateEvaluation, Queried, Extends;
    var ev := GateEvaluator(spec, true);
    forall j: nat | j <= k
      ensures Evaluate(ev, p, w, j, false) ==
        if j == k then Terminal(Body(true, IsPresent, IrrevocablePrefix)) else KeepPolling
    {
      PrefixEvaluation(spec, true, w.answer(j));
      DefinednessIsFixed(spec, w.answer(k), w.answer(j));
    }
    var q := Settled(Body(true, IsPresent, IrrevocablePrefix), if k < p.retries then k + 1 else p.retries,
                     k == p.retries, 0, k + 1);
    assert SettledOnPrefix(ev, p, w, q);
    OutcomeIsDetermined(ev, p, w, o, q);
  }

  // Hence it settles early exactly when one of the reads before the final one settles.
  lemma RunSettlesEarlyIff(spec: Spec, p: Polling, w: World, o: Outcome)
    requires p.Valid() && PollSpec(GateEvaluator(spec, true), p, w, o)
    ensures o.Settled? && o.body.settlement == IrrevocablePrefix <==>
      exists k: nat :: k < Base(p, w) && SettlesOn(spec, w.answer(k))
  {
    hide Judge, At, DoneAt, GateEvaluation, Queried, SettlesOn;
    if o.Settled? && o.body.settlement == IrrevocablePrefix {
      FinalIsNotIrrevocable(spec, p, w, o);
      PrefixEvaluation(spec, true, w.answer(o.fetches - 1));
      assert SettlesOn(spec, w.answer(o.fetches - 1));
    }
    if k: nat :| k < Base(p, w) && SettlesOn(spec, w.answer(k)) {
      var first := FirstSettling(spec, w, k);
      RunEndsAtFirstSettling(spec, p, w, o, first);
    }
  }

  lemma FirstSettling(spec: Spec, w: World, k: nat) returns (first: nat)
    requires SettlesOn(spec, w.answer(k))
    ensures first <= k && SettlesOn(spec, w.answer(first))
    ensures forall j: nat :: j < first ==> !SettlesOn(spec, w.answer(j))
  {
    hide SettlesOn;
    first := 0;
    while !SettlesOn(spec, w.answer(first))
      invariant first <= k && forall j: nat :: j < first ==> !SettlesOn(spec, w.answer(j))
      decreases k - first
    {
      first := first + 1;
    }
  }

  // A run fails exactly when the spec has no verdict, and then on its first read.
  lemma RunFailsIff(spec: Spec, early: bool, p: Polling, w: World, o: Outcome)
    requires p.Valid() && PollSpec(GateEvaluator(spec, early), p, w, o)
    ensures o.Failed? <==> Judge(spec, w.answer(0)).None?
    ensures o.Failed? ==> o == Failed(1)
  {
    hide Judge, At, DoneAt, GateEvaluation, Queried, Extends;
    var ev := GateEvaluator(spec, early);
    forall k: nat
      ensures Judge(spec, w.answer(k)).Some? <==> Judge(spec, w.answer(0)).Some?
      ensures Evaluate(ev, p, w, k, false).Raised? <==> Judge(spec, w.answer(k)).None?
      ensures Evaluate(ev, p, w, k, true).Terminal? <==> Judge(spec, w.answer(k)).Some?
    {
      DefinednessIsFixed(spec, w.answer(k), w.answer(0));
      EvaluationShape(spec, early, p, w, k);
    }
    if Judge(spec, w.answer(0)).None? {
      assert FailedOnPrefix(ev, p, w, Failed(1));
      OutcomeIsDetermined(ev, p, w, o, Failed(1));
    }
  }

  // The final verdict -------------------------------------------------------------------------

  // The store, or a source some rule probes, did not give a whole answer.
  ghost predicate Doubtful(spec: Spec, read: Read) {
    || !read.reachable || !read.complete
    || exists i :: 0 <= i < |spec.rules| && spec.rules[i].kind.Custom? && !read.observed(i).probeReachable
  }

  lemma DoubtMeaning(spec: Spec, read: Read)
    requires Judge(spec, read).Some?
    ensures var g := Judge(spec, read).value;
      !g.reachable || !g.complete || !g.probeReachable <==> Doubtful(spec, read)
  {
    var cs := Checks(spec.rules, read);
    forall i | 0 <= i < |cs|
      ensures cs[i].probeReachable <==> !(spec.rules[i].kind.Custom? && !read.observed(i).probeReachable)
    {
      CheckMeaning(spec, read, i);
    }
    hide CheckOf, RequiredOutcome;
    if i :| 0 <= i < |cs| && spec.rules[i].kind.Custom? && !read.observed(i).probeReachable {
      assert !cs[i].probeReachable;
    }
  }

  // A full run's verdict is that of its last read: present when the gate is ok, otherwise
  // inconclusive when anything went unanswered, otherwise absent.
  lemma FinalVerdict(spec: Spec, early: bool, p: Polling, w: World, o: Outcome)
    requires p.Valid() && PollSpec(GateEvaluator(spec, early), p, w, o)
    requires o.Settled? && o.body.settlement == BoundedFinal
    ensures o.fetches > 0 && Judge(spec, w.answer(o.fetches - 1)).Some?
    ensures var read := w.answer(o.fetches - 1);
      && o.body.ok == Judge(spec, read).value.ok
      && o.body.verdict == if Judge(spec, read).value.ok then IsPresent
                           else if Doubtful(spec, read) then IsInconclusive
                           else IsAbsent
  {
    FinalOutcome(spec, early, p, w, o);
    var read := w.answer(o.fetches - 1);
    EvaluationShape(spec, early, p, w, o.fetches - 1);
    DoubtMeaning(spec, read);
    hide Judge, At, DoneAt, Queried, Doubtful;
  }

  // Waiting -------------------------------------------------------------------------------------

  // The pause a geometric back-off has grown to: b(1) is the base delay, each next the last
  // times the factor.
  ghost predicate BacksOff(p: Polling, b: nat -> real) {
    b(1) == p.delay && forall n: nat :: n >= 1 ==> b(n + 1) == b(n) * p.backoff
  }

  lemma {:induction false} PowerGrows(p: Polling, b: nat -> real, n: nat)
    requires BacksOff(p, b) && n >= 1
    ensures b(n) == p.delay * Power(p.backoff, n - 1)
  {
    if n > 1 {
      PowerGrows(p, b, n - 1);
      assert b(n - 1 + 1) == b(n - 1) * p.backoff;
    }
  }

  // After the n-th read, or before any, the pause is the larger of the capped back-off and
  // `Retry-After`.
  lemma PauseMeaning(p: Polling, b: nat -> real, n: nat, retryAfterS: Option<real>)
    requires BacksOff(p, b)
    ensures var pause, grown := NextPollDelay(p, n, retryAfterS), b(if n == 0 then 1 else n);
      && (pause >= grown || pause >= p.maxDelay)
      && (retryAfterS.Some? ==> pause >= retryAfterS.value)
      && ((pause <= grown && pause <= p.maxDelay) || (retryAfterS.Some? && pause == retryAfterS.value))
  {
    PowerGrows(p, b, if n == 0 then 1 else n);
    hide Power;
  }

  // Read k + 1 is issued no sooner than that pause after read k was done.
  lemma ReadsAreSpaced(p: Polling, w: World, k: nat)
    requires k + 1 < p.retries
    ensures (At(p, w, k + 1) - DoneAt(p, w, k)) as real
         >= NextPollDelay(p, k + 1, w.answer(k).retryAfterS) * 1000000.0
  {
    AtStep(p, w, k);
    hide At, DoneAt, NextPollDelay;
  }

  // The confirming reads are spaced by their own delay.
  lemma ConfirmationsAreSpaced(p: Polling, w: World, k: nat)
    requires p.Valid() && k + 1 >= Base(p, w)
    ensures (At(p, w, k + 1) - DoneAt(p, w, k)) as real >= p.confirmDelayS * 1000000.0
  {
    AtStep(p, w, k);
    ConfirmPause(p, w, k + 1);
    hide At, DoneAt, PauseAfter;
  }
}
