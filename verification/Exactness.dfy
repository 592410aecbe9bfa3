/**
 When the monitors are exact: `Decide` coincides with the three-valued verdict on every
 prefix exactly when the rule meets `Exact`, and its `pend` is undecided exactly when the
 rule meets `PendExact`.
 */
module Exactness {
  import opened Options
  import opened Events
  import opened Rules
  import opened Monitors
  import opened Ltl3
  import opened OrderExactness
  import OrderInevitability

  ghost predicate Satisfiable(m: Matcher) {
    exists e :: m(e)
  }

  ghost predicate CanOffend(ms: seq<Matcher>, allow: seq<Matcher>) {
    exists e :: Offends(ms, allow, e)
  }

  ghost predicate CanConform(m: Matcher, field: string, op: Op, target: real) {
    exists e :: m(e) && WithinThreshold(field, op, target, e)
  }

  ghost predicate CanBreach(m: Matcher, field: string, op: Op, target: real) {
    exists e :: OffendsDuration(m, field, op, target, e)
  }

  predicate ExactTarget(op: Op, want: real) {
    match op
    case Ge => true
    case Gt => want >= 0.0
    case Eq => want >= 0.0 && want == want.Floor as real
    case Le => want >= 0.0
    case Lt => want > 0.0
    case Ne => false
  }

  // When a rule's monitor decides as early as any monitor could.
  ghost predicate Exact(r: Rule) {
    match r
    case Count(m, op, want) => (Satisfiable(m) && ExactTarget(op, want)) || (op == Ge && want <= 0.0)
    case Present(ms) => ms != [] && forall i :: 0 <= i < |ms| ==> Satisfiable(ms[i])
    case Absent(ms, allow) => CanOffend(ms, allow)
    case Duration(m, field, op, target) =>
      CanConform(m, field, op, target) && CanBreach(m, field, op, target)
    case Order(names, within, skew) => OrderExact(names, within, skew)
    case Heartbeat(_, every, edge) => every >= 0.0 && !edge
  }

  // When `pend` is undecided. Only a `must_order` may be that and yet latch too much.
  ghost predicate PendExact(r: Rule) {
    if r.Order? then OrderPendExact(r.names, r.withinS, r.tieSkewMs) else Exact(r)
  }

  // The monitor refuses to be built with a name listed twice.
  ghost predicate Legal(r: Rule) {
    r.Order? ==> OrderInevitability.Distinct(r.names)
  }

  // An undecided prefix has a passing and a failing extension.
  ghost predicate BothReachable(r: Rule, s: seq<Event>) {
    && (exists t :: Holds(r, s + t))
    && (exists t :: !Holds(r, s + t))
  }

  lemma BothReachableMeansPend(r: Rule, s: seq<Event>)
    ensures ThreeValued(r, s) == Pend <==> BothReachable(r, s)
  {
  }

  function Repeat(e: Event, n: nat): seq<Event> {
    seq(n, _ => e)
  }

  lemma {:induction false} RepeatMatched(m: Matcher, e: Event, n: nat)
    requires m(e)
    ensures Matched(m, Repeat(e, n)) == n
  {
    if n > 0 {
      RepeatMatched(m, e, n - 1);
      assert Repeat(e, n)[..n - 1] == Repeat(e, n - 1);
    }
  }

  // Any larger count is reachable from here.
  lemma ReachCount(m: Matcher, s: seq<Event>, n: nat) returns (t: seq<Event>)
    requires Satisfiable(m) && Matched(m, s) <= n
    ensures Matched(m, s + t) == n
  {
    var e :| m(e);
    t := Repeat(e, n - Matched(m, s));
    MatchedExtends(m, s, t);
    RepeatMatched(m, e, n - Matched(m, s));
  }

  lemma CountIsExact(m: Matcher, op: Op, want: real, s: seq<Event>)
    requires Exact(Count(m, op, want)) && Decide(Count(m, op, want), s) == Pend
    ensures BothReachable(Count(m, op, want), s)
  {
    var r := Count(m, op, want);
    var got := Matched(m, s);
    var high := ReachCount(m, s, got + Above(want));
    var exact := ReachCount(m, s, if op == Eq then want.Floor else got);
    assert (got + Above(want)) as real > want;
    assert s + [] == s;
    if op == Eq {
      assert Holds(r, s + exact) && !Holds(r, s + high);
    } else {
      assert Holds(r, s + []) <==> !Holds(r, s + high);
    }
  }

  // Events that between them meet every matcher.
  lemma {:induction false} ReachAllHit(ms: seq<Matcher>) returns (t: seq<Event>)
    requires forall i :: 0 <= i < |ms| ==> Satisfiable(ms[i])
    ensures AllHit(ms, t)
  {
    if ms == [] {
      t := [];
    } else {
      var last := |ms| - 1;
      var before := ReachAllHit(ms[..last]);
      var e :| ms[last](e);
      t := before + [e];
      forall i | 0 <= i < |ms| ensures Hit(ms[i], t) {
        if i < last { assert Hit(ms[..last][i], before); }
        HitStep(ms[i], before, e);
      }
    }
  }

  lemma PresentIsExact(ms: seq<Matcher>, s: seq<Event>)
    requires Exact(Present(ms)) && Decide(Present(ms), s) == Pend
    ensures BothReachable(Present(ms), s)
  {
    var t := ReachAllHit(ms);
    forall i | 0 <= i < |ms| ensures Hit(ms[i], s + t) { HitExtends(ms[i], s, t); }
    assert Holds(Present(ms), s + t);
    assert s + [] == s;
    assert s == [] ==> !Hit(ms[0], s);
    assert !Holds(Present(ms), s + []);
  }

  lemma AbsentIsExact(ms: seq<Matcher>, allow: seq<Matcher>, s: seq<Event>)
    requires Exact(Absent(ms, allow)) && Decide(Absent(ms, allow), s) == Pend
    ensures BothReachable(Absent(ms, allow), s)
  {
    var e :| Offends(ms, allow, e);
    assert (s + [e])[|s|] == e;
    assert !Holds(Absent(ms, allow), s + [e]);
    assert s + [] == s;
    assert Holds(Absent(ms, allow), s + []);
  }

  lemma DurationIsExact(m: Matcher, field: string, op: Op, target: real, s: seq<Event>)
    requires Exact(Duration(m, field, op, target)) && Decide(Duration(m, field, op, target), s) == Pend
    ensures BothReachable(Duration(m, field, op, target), s)
  {
    var good :| m(good) && WithinThreshold(field, op, target, good);
    var bad :| OffendsDuration(m, field, op, target, bad);
    assert (s + [good])[|s|] == good;
    assert Holds(Duration(m, field, op, target), s + [good]);
    assert (s + [bad])[|s|] == bad;
    assert !Holds(Duration(m, field, op, target), s + [bad]);
  }

  function Beat(name: string, ts: int): Event {
    Event(Some(name), Some(ts), None, None, map[])
  }

  lemma HeartbeatIsExact(name: string, every: real, s: seq<Event>)
    requires every >= 0.0 && Decide(Heartbeat(name, every, false), s) == Pend
    ensures BothReachable(Heartbeat(name, every, false), s)
  {
    var r, bs := Heartbeat(name, every, false), Beats(name, s);
    var ts := if bs == [] then 0 else bs[|bs| - 1] + Above(Micros(every));
    var late := Beat(name, ts);
    BeatsStep(name, s, late);
    assert s + [] == s;
    ShortGapsBoundMaxGap(every, bs);
    if bs == [] {
      assert Holds(r, s + [late]);
      assert !Holds(r, s + []);
    } else {
      LongGapStep(every, bs, ts);
      LongGapFails(name, every, false, s + [late]);
      assert !Holds(r, s + [late]);
      assert Holds(r, s + []);
    }
  }

  lemma OrderIsPendExact(names: seq<string>, within: Option<real>, skew: Option<real>, s: seq<Event>)
    requires Legal(Order(names, within, skew)) && PendExact(Order(names, within, skew))
    requires Decide(Order(names, within, skew), s) == Pend
    ensures BothReachable(Order(names, within, skew), s)
  {
    hide Decide, Holds, OrderExact;
    var t := PendCanPass(names, within, skew, s);
    PendCanFail(names, within, skew, s);
    assert s + [] == s;
    assert !Holds(Order(names, within, skew), s + []);
  }

  lemma PendIsUndecided(r: Rule, s: seq<Event>)
    requires Legal(r) && PendExact(r) && Decide(r, s) == Pend
    ensures ThreeValued(r, s) == Pend
  {
    match r {
      case Count(m, op, want) => CountIsExact(m, op, want, s);
      case Present(ms) => PresentIsExact(ms, s);
      case Absent(ms, allow) => AbsentIsExact(ms, allow, s);
      case Duration(m, field, op, target) => DurationIsExact(m, field, op, target, s);
      case Order(names, within, skew) => OrderIsPendExact(names, within, skew, s);
      case Heartbeat(name, every, _) => HeartbeatIsExact(name, every, s);
    }
    BothReachableMeansPend(r, s);
  }

  // Inexactness: a prefix whose fate is sealed while the monitor still says pending.
  ghost predicate DecidesLate(r: Rule, s: seq<Event>) {
    Decide(r, s) == Pend && (InevitablyHolds(r, s) || InevitablyFails(r, s))
  }

  lemma {:induction false} UnsatisfiableNeverMatches(m: Matcher, s: seq<Event>)
    requires !Satisfiable(m)
    ensures Matched(m, s) == 0
  {
    if s != [] { UnsatisfiableNeverMatches(m, s[..|s| - 1]); }
  }

  lemma InexactCountDecidesLate(m: Matcher, op: Op, want: real) returns (s: seq<Event>)
    requires !Exact(Count(m, op, want))
    ensures DecidesLate(Count(m, op, want), s)
  {
    var r := Count(m, op, want);
    s := [];
    if !Satisfiable(m) {
      forall t ensures Matched(m, s + t) == 0 { UnsatisfiableNeverMatches(m, s + t); }
    } else if op == Ne {
      var n := Above(want);
      s := ReachCount(m, [], n);
      assert [] + s == s;
      forall t ensures Holds(r, s + t) { MatchedExtends(m, s, t); }
    } else if op == Eq && want >= 0.0 {
      forall t ensures !Holds(r, s + t) { assert Matched(m, s + t) as real != want; }
    }
  }

  lemma InexactPresentDecidesLate(ms: seq<Matcher>)
    requires !Exact(Present(ms))
    ensures DecidesLate(Present(ms), [])
  {
    if ms != [] {
      var i :| 0 <= i < |ms| && !Satisfiable(ms[i]);
      forall t ensures !Holds(Present(ms), [] + t) { assert !Hit(ms[i], [] + t); }
    }
  }

  lemma InexactDurationDecidesLate(m: Matcher, field: string, op: Op, target: real) returns (s: seq<Event>)
    requires !Exact(Duration(m, field, op, target))
    ensures DecidesLate(Duration(m, field, op, target), s)
  {
    if CanConform(m, field, op, target) {
      var good :| m(good) && WithinThreshold(field, op, target, good);
      s := [good];
      forall t ensures Holds(Duration(m, field, op, target), s + t) { assert (s + t)[0] == good; }
    } else {
      s := [];
    }
  }

  // A quiet event at zero and then a beat.
  function SilenceThenBeat(name: string, at: int): seq<Event> {
    [Event(None, Some(0), None, None, map[])] + [Beat(name, at)]
  }

  lemma SilenceThenBeatStamps(name: string, at: int)
    ensures Beats(name, SilenceThenBeat(name, at)) == [at] && Stamps(SilenceThenBeat(name, at)) == [0, at]
  {
    var quiet := Event(None, Some(0), None, None, map[]);
    BeatsStep(name, [], quiet);
    BeatsStep(name, [quiet], Beat(name, at));
    assert [] + [quiet] == [quiet];
  }

  lemma OneBeatHasNoLongGap(every: real, at: int)
    ensures !LongGap(every, [at])
  {
  }

  // A silence before the first beat that is already too long.
  lemma LeadingSilenceDecidesLate(name: string, every: real) returns (s: seq<Event>)
    requires every >= 0.0
    ensures DecidesLate(Heartbeat(name, every, true), s)
  {
    hide Beats, Stamps, Above, SilenceThenBeat, HeartbeatHolds;
    var first := Above(Micros(every));
    s := SilenceThenBeat(name, first);
    SilenceThenBeatStamps(name, first);
    OneBeatHasNoLongGap(every, first);
    forall t ensures !Holds(Heartbeat(name, every, true), s + t) {
      LeadingSilenceFails(name, every, s, t);
    }
  }

  lemma LeadingSilenceFails(name: string, every: real, s: seq<Event>, t: seq<Event>)
    requires Beats(name, s) != [] && 0 in Stamps(s) && Beats(name, s)[0] as real > Micros(every)
    ensures !HeartbeatHolds(name, every, true, s + t)
  {
    BeatsExtend(name, s, t);
    BeatsAreStamps(name, s + t);
    var bs, ts := Beats(name, s + t), Stamps(s + t);
    assert 0 in ts && bs[0] == Beats(name, s)[0];
    var i :| 0 <= i < |ts| && ts[i] == 0;
    LowestBelow(ts, i);
    hide Beats, Stamps, MaxGap, Lowest, Highest;
    assert EdgeGap(true, bs, ts) >= bs[0];
  }

  lemma InexactHeartbeatDecidesLate(name: string, every: real, edge: bool) returns (s: seq<Event>)
    requires !Exact(Heartbeat(name, every, edge))
    ensures DecidesLate(Heartbeat(name, every, edge), s)
  {
    if every < 0.0 {
      s := [];
      forall t ensures !Holds(Heartbeat(name, every, edge), s + t) { MaxGapNonnegative(Beats(name, s + t)); }
    } else {
      s := LeadingSilenceDecidesLate(name, every);
    }
  }

  // An exact `must_order` decides no more than is inevitable.
  lemma OrderDecisionIsInevitable(r: Rule, s: seq<Event>)
    requires r.Order? && Exact(r) && Decide(r, s) != Pend
    ensures Decide(r, s) == ThreeValued(r, s)
  {
    hide Decide, Holds;
    forall t ensures Holds(r, s + t) <==> Decide(r, s) == Sat {
      if Decide(r, s) == Sat {
        OrderInevitability.SatIsFinal(r.names, r.withinS, r.tieSkewMs, s, t);
      } else {
        OrderInevitability.ViolIsFinal(r.names, r.withinS, r.tieSkewMs, s, t);
      }
    }
    ThreeValuedMeaning(r, s);
  }

  // Where the monitor and the three-valued verdict part.
  lemma InexactDiffers(r: Rule) returns (s: seq<Event>)
    requires Legal(r) && !Exact(r)
    ensures Decide(r, s) != ThreeValued(r, s)
  {
    if PendExact(r) {
      var t;
      s, t := LongOrderIsRepaired(r.names, r.tieSkewMs);
      ThreeValuedMeaning(r, s);
    } else {
      s := InexactDecidesLate(r);
      ThreeValuedMeaning(r, s);
    }
  }

  // The monitors compute the three-valued verdict exactly when the rule is exact.
  lemma ExactIff(r: Rule)
    requires Legal(r)
    ensures Exact(r) <==> forall s :: Decide(r, s) == ThreeValued(r, s)
  {
    hide Decide, ThreeValued;
    if Exact(r) {
      forall s ensures Decide(r, s) == ThreeValued(r, s) {
        if Decide(r, s) == Pend {
          PendIsUndecided(r, s);
        } else if r.Order? {
          OrderDecisionIsInevitable(r, s);
        } else {
          DecisionIsInevitable(r, s);
        }
      }
    } else {
      var s := InexactDiffers(r);
    }
  }

  // Their `pend` means undecided exactly when the rule is pend-exact.
  lemma PendExactIff(r: Rule)
    requires Legal(r)
    ensures PendExact(r) <==> forall s :: Decide(r, s) == Pend ==> ThreeValued(r, s) == Pend
  {
    hide Decide, ThreeValued;
    if PendExact(r) {
      forall s | Decide(r, s) == Pend ensures ThreeValued(r, s) == Pend { PendIsUndecided(r, s); }
    } else {
      var s := InexactDecidesLate(r);
      ThreeValuedMeaning(r, s);
    }
  }

  lemma InexactDecidesLate(r: Rule) returns (s: seq<Event>)
    requires Legal(r) && !PendExact(r)
    ensures DecidesLate(r, s)
  {
    match r
    case Count(m, op, want) => s := InexactCountDecidesLate(m, op, want);
    case Present(ms) => InexactPresentDecidesLate(ms); s := [];
    case Absent(ms, allow) => s := [];
    case Duration(m, field, op, target) => s := InexactDurationDecidesLate(m, field, op, target);
    case Order(names, within, skew) => s := InexactOrderIsSealed(names, within, skew);
    case Heartbeat(name, every, edge) => s := InexactHeartbeatDecidesLate(name, every, edge);
  }

  // An inevitable verdict stays.
  lemma InevitableVerdictStays(r: Rule, s: seq<Event>, t: seq<Event>)
    requires ThreeValued(r, s) != Pend
    ensures ThreeValued(r, s + t) == ThreeValued(r, s)
  {
    hide Holds;
    forall u ensures Holds(r, s + t + u) == Holds(r, s + (t + u)) { assert s + t + u == s + (t + u); }
    ThreeValuedMeaning(r, s);
    ThreeValuedMeaning(r, s + t);
  }

  // An exact rule's latch holds its decision on the whole prefix, `must_order` or not.
  lemma {:induction false} ExactLatchIsDecision(r: Rule, fed: seq<Event>, at: seq<int>)
    requires Legal(r) && Exact(r) && |fed| == |at|
    ensures LatchAfter(r, fed, at).verdict == Decide(r, fed)
  {
    hide Decide, ThreeValued;
    if fed != [] {
      var before, last := fed[..|fed| - 1], fed[|fed| - 1];
      ExactLatchIsDecision(r, before, at[..|at| - 1]);
      ExactIff(r);
      if Decide(r, before) != Pend {
        InevitableVerdictStays(r, before, [last]);
        assert fed == before + [last];
      }
    }
  }

  lemma {:induction false} PendHasNoIndex(r: Rule, fed: seq<Event>, at: seq<int>)
    requires |fed| == |at|
    ensures var latch := LatchAfter(r, fed, at); latch.verdict == Pend <==> latch.settledAt == None
  {
    if fed != [] { PendHasNoIndex(r, fed[..|fed| - 1], at[..|at| - 1]); }
  }

  // As long as the verdict is open, nothing is latched.
  lemma OpenVerdictIsUnsettled(r: Rule, fed: seq<Event>, at: seq<int>)
    requires Legal(r) && Exact(r) && |fed| == |at| && ThreeValued(r, fed) == Pend
    ensures LatchAfter(r, fed, at) == Latch(Pend, None)
  {
    hide Decide, ThreeValued;
    ExactIff(r);
    ExactLatchIsDecision(r, fed, at);
    PendHasNoIndex(r, fed, at);
  }

  // `settled_at` is the index of the first event after which the verdict is inevitable,
  // -1 when it is inevitable from the start.
  lemma {:induction false} SettledAtFirstInevitable(r: Rule, fed: seq<Event>, at: seq<int>, n: nat)
    requires Legal(r) && Exact(r) && |fed| == |at| && n <= |fed|
    requires ThreeValued(r, fed[..n]) != Pend
    requires n > 0 ==> ThreeValued(r, fed[..n - 1]) == Pend
    ensures LatchAfter(r, fed, at) == Latch(ThreeValued(r, fed[..n]), Some(if n == 0 then -1 else at[n - 1]))
  {
    hide ThreeValued;
    ExactIff(r);
    var last := |fed| - 1;
    if n < |fed| {
      assert fed[..last][..n] == fed[..n];
      assert n > 0 ==> fed[..last][..n - 1] == fed[..n - 1];
      SettledAtFirstInevitable(r, fed[..last], at[..last], n);
    } else {
      assert fed[..n] == fed;
      if n > 0 { OpenVerdictIsUnsettled(r, fed[..last], at[..last]); }
    }
  }
}
