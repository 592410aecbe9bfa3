/**
 The three-valued verdict of Bauer, Leucker and Schallhart (TOSEM 2011) against what
 the monitors latch: `Decide` is sound for every rule but `must_order`, for which see
 OrderInevitability. Exactness says when the two coincide.
 */
module Ltl3 {
  import opened Options
  import opened Events
  import opened Rules
  import opened Monitors

  ghost predicate InevitablyHolds(r: Rule, s: seq<Event>) {
    forall t :: Holds(r, s + t)
  }

  ghost predicate InevitablyFails(r: Rule, s: seq<Event>) {
    forall t :: !Holds(r, s + t)
  }

  // Top, bottom or undecided: what every extension of the prefix agrees on.
  ghost function ThreeValued(r: Rule, s: seq<Event>): Verdict {
    if InevitablyHolds(r, s) then Sat
    else if InevitablyFails(r, s) then Viol
    else Pend
  }

  lemma ThreeValuedMeaning(r: Rule, s: seq<Event>)
    ensures ThreeValued(r, s) == Sat <==> InevitablyHolds(r, s)
    ensures ThreeValued(r, s) == Viol <==> InevitablyFails(r, s)
  {
    if InevitablyHolds(r, s) {
      assert Holds(r, s + []);
    }
  }

  // Extending a prefix ----------------------------------------------------------

  lemma {:induction false} MatchedExtends(m: Matcher, s: seq<Event>, t: seq<Event>)
    ensures Matched(m, s + t) == Matched(m, s) + Matched(m, t)
  {
    if t == [] {
      assert s + t == s;
    } else {
      var u := t[..|t| - 1];
      MatchedExtends(m, s, u);
      assert (s + t)[..|s + t| - 1] == s + u;
    }
  }

  lemma HitExtends(m: Matcher, s: seq<Event>, t: seq<Event>)
    ensures Hit(m, s + t) <==> Hit(m, s) || Hit(m, t)
  {
    var u := s + t;
    if Hit(m, s) {
      var k :| 0 <= k < |s| && m(s[k]);
      assert m(u[k]);
    }
    if Hit(m, t) {
      var k :| 0 <= k < |t| && m(t[k]);
      assert m(u[|s| + k]);
    }
    if Hit(m, u) {
      var k :| 0 <= k < |u| && m(u[k]);
      assert k < |s| ==> m(s[k]);
      assert k >= |s| ==> m(t[k - |s|]);
    }
  }

  lemma LastBeat(name: string, s: seq<Event>, e: Event)
    ensures Beats(name, s + [e]) == Beats(name, s) + Beats(name, [e])
    ensures Stamps(s + [e]) == Stamps(s) + Stamps([e])
  {
    assert (s + [e])[..|s|] == s && [e][..0] == [];
  }

  lemma {:induction false} BeatsExtend(name: string, s: seq<Event>, t: seq<Event>)
    ensures Beats(name, s + t) == Beats(name, s) + Beats(name, t)
    ensures Stamps(s + t) == Stamps(s) + Stamps(t)
  {
    if t == [] {
      assert s + t == s;
    } else {
      var u, e := t[..|t| - 1], t[|t| - 1];
      BeatsExtend(name, s, u);
      BeatsExtendStep(name, s, u, e);
      assert u + [e] == t;
    }
  }

  lemma BeatsExtendStep(name: string, s: seq<Event>, u: seq<Event>, e: Event)
    requires Beats(name, s + u) == Beats(name, s) + Beats(name, u)
    requires Stamps(s + u) == Stamps(s) + Stamps(u)
    ensures Beats(name, s + (u + [e])) == Beats(name, s) + Beats(name, u + [e])
    ensures Stamps(s + (u + [e])) == Stamps(s) + Stamps(u + [e])
  {
    LastBeat(name, u, e);
    LastBeat(name, s + u, e);
    assert s + (u + [e]) == s + u + [e];
    hide Beats, Stamps;
  }

  lemma {:induction false} MaxGapCovers(bs: seq<int>, i: int)
    requires 1 <= i < |bs|
    ensures MaxGap(bs) >= bs[i] - bs[i - 1]
  {
    if i < |bs| - 1 { MaxGapCovers(bs[..|bs| - 1], i); }
  }

  lemma {:induction false} ShortGapsBoundMaxGap(everyS: real, bs: seq<int>)
    requires everyS >= 0.0 && !LongGap(everyS, bs)
    ensures MaxGap(bs) as real <= Micros(everyS)
  {
    if |bs| >= 2 {
      var cs := bs[..|bs| - 1];
      forall i | 1 <= i < |cs| ensures (cs[i] - cs[i - 1]) as real <= Micros(everyS) {
        assert cs[i] == bs[i] && cs[i - 1] == bs[i - 1];
      }
      ShortGapsBoundMaxGap(everyS, cs);
      assert (bs[|bs| - 1] - bs[|bs| - 2]) as real <= Micros(everyS);
    }
  }

  lemma {:induction false} MaxGapNonnegative(bs: seq<int>)
    ensures MaxGap(bs) >= 0
  {
    if |bs| >= 2 { MaxGapNonnegative(bs[..|bs| - 1]); }
  }

  lemma {:induction false} LowestBelow(xs: seq<int>, i: int)
    requires 0 <= i < |xs|
    ensures Lowest(xs) <= xs[i] <= Highest(xs)
  {
    if |xs| > 1 && i < |xs| - 1 { LowestBelow(xs[..|xs| - 1], i); }
  }

  lemma LongGapFails(name: string, everyS: real, edge: bool, s: seq<Event>)
    requires LongGap(everyS, Beats(name, s))
    ensures !HeartbeatHolds(name, everyS, edge, s)
  {
    hide Beats, Stamps, MaxGap, EdgeGap;
    var bs := Beats(name, s);
    var i :| 1 <= i < |bs| && (bs[i] - bs[i - 1]) as real > Micros(everyS);
    MaxGapCovers(bs, i);
  }

  lemma LongGapExtends(everyS: real, bs: seq<int>, cs: seq<int>)
    requires LongGap(everyS, bs)
    ensures LongGap(everyS, bs + cs)
  {
    var i :| 1 <= i < |bs| && (bs[i] - bs[i - 1]) as real > Micros(everyS);
    assert ((bs + cs)[i] - (bs + cs)[i - 1]) as real > Micros(everyS);
  }

  // Soundness -------------------------------------------------------------------

  // A decision taken on a prefix is taken on every extension, and is the outcome there.
  lemma DecisionIsFinal(r: Rule, s: seq<Event>, t: seq<Event>)
    requires !r.Order? && Decide(r, s) != Pend
    ensures Decide(r, s + t) == Decide(r, s)
    ensures Holds(r, s + t) <==> Decide(r, s) == Sat
  {
    match r
    case Count(m, op, want) =>
      MatchedExtends(m, s, t);
    case Present(ms) =>
      forall i | 0 <= i < |ms| ensures Hit(ms[i], s + t) { HitExtends(ms[i], s, t); }
    case Absent(ms, allow) =>
      HitExtends(e => Offends(ms, allow, e), s, t);
      assert Hit(e => Offends(ms, allow, e), s);
    case Duration(m, field, op, target) =>
      HitExtends(e => OffendsDuration(m, field, op, target, e), s, t);
      assert Hit(e => OffendsDuration(m, field, op, target, e), s);
    case Heartbeat(name, every, edge) =>
      BeatsExtend(name, s, t);
      LongGapExtends(every, Beats(name, s), Beats(name, t));
      LongGapFails(name, every, edge, s + t);
  }

  lemma DecisionIsInevitable(r: Rule, s: seq<Event>)
    requires !r.Order? && Decide(r, s) != Pend
    ensures Decide(r, s) == ThreeValued(r, s)
  {
    forall t ensures Holds(r, s + t) <==> Decide(r, s) == Sat { DecisionIsFinal(r, s, t); }
    ThreeValuedMeaning(r, s);
  }

  // The latch holds the decision on the whole prefix: nothing is decided late or undone.
  lemma {:induction false} LatchIsDecision(r: Rule, fed: seq<Event>, at: seq<int>)
    requires !r.Order? && |fed| == |at|
    ensures LatchAfter(r, fed, at).verdict == Decide(r, fed)
  {
    if fed != [] {
      var before := fed[..|fed| - 1];
      LatchIsDecision(r, before, at[..|at| - 1]);
      if Decide(r, before) != Pend {
        DecisionIsFinal(r, before, [fed[|fed| - 1]]);
        assert fed == before + [fed[|fed| - 1]];
      }
    }
  }

  // A latched verdict is the outcome of every extension of the stream.
  lemma LatchedVerdictIsPermanent(r: Rule, fed: seq<Event>, at: seq<int>, more: seq<Event>, later: seq<int>)
    requires !r.Order? && |fed| == |at| && |more| == |later|
    requires LatchAfter(r, fed, at).verdict != Pend
    ensures LatchAfter(r, fed + more, at + later).verdict == LatchAfter(r, fed, at).verdict
    ensures Holds(r, fed + more) <==> LatchAfter(r, fed, at).verdict == Sat
  {
    LatchIsDecision(r, fed, at);
    DecisionIsFinal(r, fed, more);
    LatchIsDecision(r, fed + more, at + later);
  }
}
