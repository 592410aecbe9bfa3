/** `judge_events`: how the monitors' results become a gate verdict. */
module GateKernel {
  import opened Options
  import opened Events
  import opened Rules
  import opened Monitors
  import opened LiveBank

  // What a handler outside the kernel reports for its rule at one read: external
  // probes, custom checks, and the monitors that never latch `sat`.
  datatype Observation = Observation(passed: bool, corroborated: bool, probeReachable: bool)

  datatype CheckKind = Kernel(rule: Rule) | Custom

  datatype GateRule = GateRule(kind: CheckKind, optional: bool, pending: bool, weight: real)

  datatype Policy = Policy(requireCorroboration: bool, requireSignature: bool, requireIndependentStore: bool)

  // A spec with its policy and the facts about the store that no read changes.
  datatype Spec = Spec(
    rules: seq<GateRule>,
    threshold: Option<real>,
    policy: Policy,
    emitIndependent: Option<bool>,
    authentic: seq<Event> -> bool)

  // One readback: `observed` gives the out-of-kernel observation of each rule.
  datatype Read = Read(
    reachable: bool,
    complete: bool,
    events: seq<Event>,
    retryAfterS: Option<real>,
    observed: nat -> Observation)

  datatype GateCheck = GateCheck(
    passed: bool,
    verdict: Option<Verdict>,
    tautological: bool,
    mustOrder: bool,
    corroborated: bool,
    probeReachable: bool,
    optional: bool,
    pending: bool,
    weight: real)
  {
    predicate Gating() { !optional && !pending && !tautological }
  }

  datatype GateResult = GateResult(
    ok: bool,
    reachable: bool,
    complete: bool,
    probeReachable: bool,
    signatureEnforced: bool,
    checks: seq<GateCheck>)

  // `sorted(events, key=stream_key)`: stable, so equal keys keep their order.
  function StreamSorted(s: seq<Event>): (r: seq<Event>)
    ensures multiset(r) == multiset(s)
  {
    if s == [] then []
    else
      var last := |s| - 1;
      assert s == s[..last] + [s[last]];
      InsertByKey(s[last], StreamSorted(s[..last]))
  }

  function InsertByKey(e: Event, s: seq<Event>): (r: seq<Event>)
    ensures multiset(r) == multiset(s) + multiset{e}
  {
    if s == [] || KeyLeq(s[|s| - 1], e) then
      s + [e]
    else
      var last := |s| - 1;
      assert s == s[..last] + [s[last]];
      InsertByKey(e, s[..last]) + [s[last]]
  }

  lemma InsertKeepsOrder(e: Event, s: seq<Event>)
    requires InStreamOrder(s)
    ensures InStreamOrder(InsertByKey(e, s))
  {
    if s != [] && !KeyLeq(s[|s| - 1], e) {
      var last := |s| - 1;
      assert KeyLeq(e, s[last]);
      hide KeyLeq;
      var before := InsertByKey(e, s[..last]);
      InsertKeepsOrder(e, s[..last]);
      forall f | f in before ensures KeyLeq(f, s[last]) {
        assert f in multiset(before);
        assert f == e || f in s[..last];
      }
    }
  }

  lemma {:induction false} StreamSortedIsInOrder(s: seq<Event>)
    ensures InStreamOrder(StreamSorted(s))
  {
    if s != [] {
      var last := |s| - 1;
      StreamSortedIsInOrder(s[..last]);
      InsertKeepsOrder(s[last], StreamSorted(s[..last]));
    }
  }

  function CheckOf(rule: GateRule, index: nat, read: Read): GateCheck {
    match rule.kind
    case Kernel(r) =>
      var sorted := StreamSorted(read.events);
      var c := Judged(r, sorted, UpTo(|sorted|), read.reachable && read.complete);
      GateCheck(c.passed, Some(c.latch.verdict), c.tautological, r.Order?, false, true,
                rule.optional, rule.pending, rule.weight)
    case Custom =>
      var o := read.observed(index);
      GateCheck(o.passed, None, false, false, o.corroborated, o.probeReachable,
                rule.optional, rule.pending, rule.weight)
  }

  function Checks(rules: seq<GateRule>, read: Read): (cs: seq<GateCheck>)
    ensures |cs| == |rules|
    ensures forall i :: 0 <= i < |cs| ==> cs[i] == CheckOf(rules[i], i, read)
  {
    seq(|rules|, i requires 0 <= i < |rules| => CheckOf(rules[i], i, read))
  }

  function TotalWeight(cs: seq<GateCheck>): real {
    if cs == [] then 0.0
    else TotalWeight(cs[..|cs| - 1]) + if cs[|cs| - 1].Gating() then cs[|cs| - 1].weight else 0.0
  }

  function PassedWeight(cs: seq<GateCheck>): real {
    if cs == [] then 0.0
    else
      var c := cs[|cs| - 1];
      PassedWeight(cs[..|cs| - 1]) + if c.Gating() && c.passed then c.weight else 0.0
  }

  predicate AssertsAnything(cs: seq<GateCheck>) {
    exists i :: 0 <= i < |cs| && cs[i].Gating()
  }

  predicate Corroborated(cs: seq<GateCheck>) {
    exists i :: 0 <= i < |cs| && cs[i].Gating() && cs[i].corroborated && cs[i].passed
  }

  // `_required_outcome`; None stands for its ValueError.
  function RequiredOutcome(cs: seq<GateCheck>, threshold: Option<real>): Option<bool> {
    match threshold
    case None => Some(forall i :: 0 <= i < |cs| && cs[i].Gating() ==> cs[i].passed)
    case Some(t) =>
      if t <= 0.0 || t > 1.0 || TotalWeight(cs) <= 0.0 then None
      else Some(PassedWeight(cs) / TotalWeight(cs) >= t)
  }

  // `_build_result`.
  function BuildResult(spec: Spec, read: Read, cs: seq<GateCheck>): Option<GateResult> {
    match RequiredOutcome(cs, spec.threshold)
    case None => None
    case Some(requiredOk) =>
      var asserts := AssertsAnything(cs);
      var corroborated := Corroborated(cs);
      var uncorroborated := spec.policy.requireCorroboration && asserts && !corroborated;
      var unauthenticated := spec.policy.requireSignature && asserts && !spec.authentic(read.events);
      var dependentStore :=
        spec.policy.requireIndependentStore && asserts && spec.emitIndependent == Some(false) && !corroborated;
      var ok := read.reachable && read.complete && asserts && requiredOk
        && !uncorroborated && !unauthenticated && !dependentStore;
      var probed := forall i :: 0 <= i < |cs| ==> cs[i].probeReachable;
      Some(GateResult(ok, read.reachable, read.complete, probed, spec.policy.requireSignature, cs))
  }

  predicate WellFormed(spec: Spec) {
    forall i :: 0 <= i < |spec.rules| ==>
      spec.rules[i].weight >= 0.0 && (spec.rules[i].kind.Kernel? ==> Compiles(spec.rules[i].kind.rule))
  }

  // The verdict on one read; None stands for a ValueError.
  function Judge(spec: Spec, read: Read): Option<GateResult> {
    if WellFormed(spec) then BuildResult(spec, read, Checks(spec.rules, read)) else None
  }

  // One rule over the sorted stream: compile it, drive its monitor, collapse.
  method EvaluateCheck(rule: GateRule, index: nat, read: Read, sorted: seq<Event>)
      returns (check: Option<GateCheck>)
    requires sorted == StreamSorted(read.events)
    ensures check.Some? <==> rule.weight >= 0.0 && (rule.kind.Kernel? ==> Compiles(rule.kind.rule))
    ensures check.Some? ==> check.value == CheckOf(rule, index, read)
  {
    if rule.weight < 0.0 { return None; }
    match rule.kind {
      case Kernel(r) =>
        var monitor := CompileCheck(r);
        if monitor.None? { return None; }
        var c := RunMonitor(monitor.value, sorted, read.reachable && read.complete);
        check := Some(GateCheck(c.passed, Some(c.latch.verdict), c.tautological, r.Order?, false, true,
                                rule.optional, rule.pending, rule.weight));
      case Custom =>
        var o := read.observed(index);
        check := Some(GateCheck(o.passed, None, false, false, o.corroborated, o.probeReachable,
                                rule.optional, rule.pending, rule.weight));
    }
  }

  // `judge_events` as the source runs it.
  method JudgeEvents(spec: Spec, read: Read) returns (result: Option<GateResult>)
    ensures result == Judge(spec, read)
  {
    hide CheckOf, Compiles, BuildResult;
    var sorted := StreamSorted(read.events);
    var checks: seq<GateCheck> := [];
    for i := 0 to |spec.rules|
      invariant |checks| == i
      invariant forall j :: 0 <= j < i ==> checks[j] == CheckOf(spec.rules[j], j, read)
      invariant forall j :: 0 <= j < i ==>
        spec.rules[j].weight >= 0.0 && (spec.rules[j].kind.Kernel? ==> Compiles(spec.rules[j].kind.rule))
    {
      var check := EvaluateCheck(spec.rules[i], i, read, sorted);
      if check.None? { return None; }
      checks := checks + [check.value];
    }
    assert checks == Checks(spec.rules, read);
    result := BuildResult(spec, read, checks);
  }
}
