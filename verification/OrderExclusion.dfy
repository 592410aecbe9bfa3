/**
 Why an early settle must not trust `must_order`: its `sat` on a sorted read survives
 every larger read only when there is no order to assert.
 */
module OrderExclusion {
  import opened Options
  import opened Events
  import opened Rules
  import opened Monitors
  import opened LiveBank
  import opened GateKernel
  import opened EarlySettle
  import opened OrderInevitability
  import OrderExactness
  import Ltl3
  import Exactness

  // The verdict the gate reads off a rule's check.
  function ReadVerdict(r: Rule, events: seq<Event>): Verdict {
    var sorted := StreamSorted(events);
    LatchAfter(r, sorted, UpTo(|sorted|)).verdict
  }

  // A `sat` on a sorted read passes on every read that holds more.
  ghost predicate SatSurvives(r: Rule) {
    forall s, t :: multiset(s) <= multiset(t) && ReadVerdict(r, s) == Sat ==> Holds(r, StreamSorted(t))
  }

  lemma SortedMember(s: seq<Event>, e: Event)
    ensures e in StreamSorted(s) <==> e in s
  {
    hide StreamSorted;
    assert e in multiset(StreamSorted(s)) <==> e in multiset(s);
  }

  // At most one name ------------------------------------------------------------------------

  lemma ShortOrderSurvives(names: seq<string>, within: Option<real>, skew: Option<real>, s: seq<Event>, t: seq<Event>)
    requires |names| <= 1 && multiset(s) <= multiset(t) && ReadVerdict(Order(names, within, skew), s) == Sat
    ensures Holds(Order(names, within, skew), StreamSorted(t))
  {
    hide StreamSorted, LatchAfter, UpTo, FirstOf;
    var sorted := StreamSorted(s);
    var n := LatchComesFromPrefix(Order(names, within, skew), sorted, UpTo(|sorted|));
    if names != [] {
      var e := FirstOf(names[0], sorted[..n]).value;
      assert e in sorted[..n] && e in sorted;
      SortedMember(s, e);
      assert e in multiset(s) && e in multiset(t) && e in t;
      SortedMember(t, e);
      OccurrenceIsFound(names[0], StreamSorted(t), e);
    }
  }

  // Two names or more -------------------------------------------------------------------------

  // How far each name is ahead of the next, to meet even a negative bound.
  function Lead(within: Option<real>): (d: int)
    ensures d >= 0
    ensures within.Some? ==> -d as real <= within.value * 1000000.0
  {
    if within.None? then 0 else OrderExactness.Above(-(within.value * 1000000.0))
  }

  // Every listed name, emitted in the listed order.
  function InTurn(names: seq<string>, d: int, i: int): Event
    requires 0 <= i < |names|
  {
    Event(Some(names[i]), Some((|names| - i) * d), None, Some(i), map[])
  }

  function AllInTurn(names: seq<string>, d: int): seq<Event> {
    seq(|names|, i requires 0 <= i < |names| => InTurn(names, d, i))
  }

  // The second name once more, stamped before everything and out of the window, not emitted.
  function Early(names: seq<string>, skew: Option<real>): Event
    requires |names| > 1
  {
    Event(Some(names[1]), Some(-1 - Window(skew)), None, None, map[])
  }

  function Window(skew: Option<real>): (us: int)
    ensures us >= 0 && (skew.Some? ==> us as real > skew.value * 1000.0)
  {
    if skew.None? then 0 else OrderExactness.Above(skew.value * 1000.0)
  }

  lemma StepOf(n: int, i: int, d: int)
    ensures (n - i) * d - (n - (i + 1)) * d == d
  {
  }

  lemma AtOrAboveZero(n: int, i: int, d: int)
    requires i < n && d >= 0
    ensures (n - i) * d >= 0
  {
  }

  // A stream of some of those events shows each name as it was emitted.
  lemma FirstInTurn(names: seq<string>, d: int, p: seq<Event>, i: int)
    requires Distinct(names) && 0 <= i < |names| && forall e :: e in p ==> e in AllInTurn(names, d)
    ensures FirstOf(names[i], p).Some? ==> FirstOf(names[i], p).value == InTurn(names, d, i)
  {
    if FirstOf(names[i], p).Some? {
      var e := FirstOf(names[i], p).value;
      var k :| 0 <= k < |names| && AllInTurn(names, d)[k] == e;
      assert names[k] == names[i];
    }
  }

  lemma InTurnPairs(names: seq<string>, within: Option<real>, skew: Option<real>, i: int, j: int)
    requires 0 <= i < j < |names|
    ensures var d := Lead(within);
      PairOk(skew, InTurn(names, d, i), InTurn(names, d, j))
    ensures j == i + 1 ==> GapOk(within, InTurn(names, Lead(within), i), InTurn(names, Lead(within), j))
  {
    hide Lead;
    StepOf(|names|, i, Lead(within));
  }

  lemma InTurnIsNeverViol(names: seq<string>, within: Option<real>, skew: Option<real>, p: seq<Event>)
    requires Distinct(names) && forall e :: e in p ==> e in AllInTurn(names, Lead(within))
    ensures Decide(Order(names, within, skew), p) != Viol
  {
    hide FirstOf, PairOk, GapOk, Lead, InTurn, AllInTurn;
    forall i | 0 <= i < |names|
      ensures FirstOf(names[i], p).Some? ==> FirstOf(names[i], p).value == InTurn(names, Lead(within), i)
    {
      FirstInTurn(names, Lead(within), p, i);
    }
    forall i, j | 0 <= i < j < |names| && SeenNeighbours(names, p, i, j)
      ensures PairOk(skew, FirstOf(names[i], p).value, FirstOf(names[j], p).value)
    {
      InTurnPairs(names, within, skew, i, j);
    }
    forall i | 0 <= i < |names| - 1 && FirstOf(names[i], p).Some? && FirstOf(names[i + 1], p).Some?
      ensures GapOk(within, FirstOf(names[i], p).value, FirstOf(names[i + 1], p).value)
    {
      InTurnPairs(names, within, skew, i, i + 1);
    }
  }

  lemma InTurnIsSat(names: seq<string>, within: Option<real>, skew: Option<real>)
    requires Distinct(names) && names != []
    ensures ReadVerdict(Order(names, within, skew), AllInTurn(names, Lead(within))) == Sat
    ensures Holds(Order(names, within, skew), StreamSorted(AllInTurn(names, Lead(within))))
  {
    var r, s := Order(names, within, skew), AllInTurn(names, Lead(within));
    var sorted := StreamSorted(s);
    forall e ensures e in sorted <==> e in s { SortedMember(s, e); }
    forall i | 0 <= i < |names| ensures FirstOf(names[i], sorted).Some? {
      assert s[i] in s && Occurs(names[i], s[i]);
      OccurrenceIsFound(names[i], sorted, s[i]);
    }
    hide FirstOf, PairOk, GapOk, AllInTurn, Lead, StreamSorted, LatchAfter, UpTo, OrderedSoFar, GapsOk;
    InTurnIsNeverViol(names, within, skew, sorted);
    LatchedOnceDecided(r, sorted, UpTo(|sorted|));
    var n := LatchComesFromPrefix(r, sorted, UpTo(|sorted|));
    assert forall e :: e in sorted[..n] ==> e in sorted;
    InTurnIsNeverViol(names, within, skew, sorted[..n]);
    assert sorted + [] == sorted;
    SatIsFinal(names, within, skew, sorted, []);
  }

  // In a sorted stream the first occurrence of a name is the earliest.
  lemma {:induction false} FirstIsEarliest(name: string, u: seq<Event>, e: Event)
    requires InStreamOrder(u) && e in u && Occurs(name, e)
    ensures FirstOf(name, u).Some? && KeyLeq(FirstOf(name, u).value, e)
  {
    var last := |u| - 1;
    if e in u[..last] {
      FirstIsEarliest(name, u[..last], e);
    } else {
      assert u[last] == e;
      if FirstOf(name, u[..last]).Some? {
        var k :| 0 <= k < last && u[..last][k] == FirstOf(name, u[..last]).value;
        assert KeyLeq(u[k], u[last]);
      }
    }
  }

  // Read with the early event, the second name comes first.
  lemma EarlyComesFirst(names: seq<string>, d: int, skew: Option<real>)
    requires Distinct(names) && |names| > 1 && d >= 0
    ensures var u := StreamSorted(AllInTurn(names, d) + [Early(names, skew)]);
      && FirstOf(names[0], u) == Some(InTurn(names, d, 0))
      && FirstOf(names[1], u) == Some(Early(names, skew))
  {
    var s, early := AllInTurn(names, d), Early(names, skew);
    var u := StreamSorted(s + [early]);
    StreamSortedIsInOrder(s + [early]);
    hide StreamSorted, FirstOf;
    SortedMember(s + [early], early);
    assert s[0] in s + [early];
    SortedMember(s + [early], s[0]);
    FirstIsEarliest(names[1], u, early);
    FirstIsEarliest(names[0], u, s[0]);
    var f, g := FirstOf(names[0], u).value, FirstOf(names[1], u).value;
    SortedMember(s + [early], f);
    SortedMember(s + [early], g);
    OwnEvent(names, d, skew, f, 0);
    OwnEvent(names, d, skew, g, 1);
    AtOrAboveZero(|names|, 1, d);
  }

  lemma OwnEvent(names: seq<string>, d: int, skew: Option<real>, e: Event, i: int)
    requires Distinct(names) && |names| > 1 && 0 <= i < |names|
    requires e in AllInTurn(names, d) + [Early(names, skew)] && e.name == Some(names[i])
    ensures e == InTurn(names, d, i) || (i == 1 && e == Early(names, skew))
  {
    if e in AllInTurn(names, d) {
      var k :| 0 <= k < |names| && AllInTurn(names, d)[k] == e;
      assert names[k] == names[i];
    } else {
      assert names[1] == names[i];
    }
  }

  lemma EarlyIsOutOfOrder(names: seq<string>, d: int, skew: Option<real>)
    requires |names| > 1 && d >= 0
    ensures var first, early := InTurn(names, d, 0), Early(names, skew);
      first.timestamp.Some? && early.timestamp.Some? && !PairOk(skew, first, early)
  {
    hide PairOk, Window;
    AtOrAboveZero(|names|, 0, d);
    EarlyIsNoSuccessor(skew, InTurn(names, d, 0), Early(names, skew));
  }

  lemma EarlyBreaksOrder(names: seq<string>, within: Option<real>, skew: Option<real>)
    requires Distinct(names) && |names| > 1
    ensures !Holds(Order(names, within, skew), StreamSorted(AllInTurn(names, Lead(within)) + [Early(names, skew)]))
  {
    hide FirstOf, PairOk, StreamSorted, InTurn, Early, AllInTurn, Lead, Holds;
    var d := Lead(within);
    EarlyComesFirst(names, d, skew);
    EarlyIsOutOfOrder(names, d, skew);
    BrokenPairFails(names, within, skew, StreamSorted(AllInTurn(names, d) + [Early(names, skew)]),
                    InTurn(names, d, 0), Early(names, skew));
  }

  lemma BrokenPairFails(names: seq<string>, within: Option<real>, skew: Option<real>, u: seq<Event>, a: Event, b: Event)
    requires |names| > 1 && FirstOf(names[0], u) == Some(a) && FirstOf(names[1], u) == Some(b)
    requires !PairOk(skew, a, b)
    ensures !Holds(Order(names, within, skew), u)
  {
    hide FirstOf, PairOk;
    assert FirstOf(names[0 + 1], u) == Some(b);
  }

  lemma EarlyIsNoSuccessor(skew: Option<real>, a: Event, b: Event)
    requires a.timestamp.Some? && b.timestamp.Some? && b.emit.None?
    requires a.timestamp.value >= 0 && b.timestamp.value == -1 - Window(skew)
    ensures !PairOk(skew, a, b)
  {
  }

  // The condition -----------------------------------------------------------------------------

  // Exactly the rules that assert no order keep a `sat` on every larger read.
  lemma SatSurvivesIff(r: Rule)
    requires Exactness.Legal(r)
    ensures SatSurvives(r) <==> !(r.Order? && |r.names| > 1)
  {
    hide StreamSorted, LatchAfter, Holds, Decide, UpTo;
    if !(r.Order? && |r.names| > 1) {
      forall s, t | multiset(s) <= multiset(t) && ReadVerdict(r, s) == Sat ensures Holds(r, StreamSorted(t)) {
        if r.Order? {
          ShortOrderSurvives(r.names, r.withinS, r.tieSkewMs, s, t);
        } else {
          Ltl3.LatchIsDecision(r, StreamSorted(s), UpTo(|StreamSorted(s)|));
          SatSurvivesMoreEvents(r, StreamSorted(s), StreamSorted(t));
        }
      }
    } else {
      var s, early := AllInTurn(r.names, Lead(r.withinS)), Early(r.names, r.tieSkewMs);
      InTurnIsSat(r.names, r.withinS, r.tieSkewMs);
      EarlyBreaksOrder(r.names, r.withinS, r.tieSkewMs);
      assert multiset(s) <= multiset(s + [early]);
    }
  }

  function OneRuleGate(r: Rule): Spec {
    Spec([GateRule(Kernel(r), false, false, 1.0)], None, Policy(false, false, false), None, _ => true)
  }

  function FullRead(events: seq<Event>): Read {
    Read(true, true, events, None, _ => Observation(true, false, true))
  }

  // A gate of one untautological rule judges as that rule does.
  lemma OneRuleVerdict(r: Rule, events: seq<Event>)
    requires Compiles(r) && !Tautological(r)
    ensures var g := Judge(OneRuleGate(r), FullRead(events));
      g.Some? && (g.value.ok <==> Holds(r, StreamSorted(events)))
    ensures CheckOf(OneRuleGate(r).rules[0], 0, FullRead(events)).verdict == Some(ReadVerdict(r, events))
  {
    hide StreamSorted, LatchAfter, Holds, UpTo, Compiles, Tautological;
    var cs := Checks(OneRuleGate(r).rules, FullRead(events));
    assert |cs| == 1 && cs[0].Gating();
  }

  // For every rule that asserts an order, a gate green with `sat` that a larger read turns
  // red: the exclusion of `must_order` from early settling is needed.
  lemma OrderExclusionIsNecessary(names: seq<string>, within: Option<real>, skew: Option<real>)
      returns (spec: Spec, earlier: Read, later: Read)
    requires Distinct(names) && |names| > 1
    ensures spec == OneRuleGate(Order(names, within, skew))
    ensures Judge(spec, earlier).Some? && Judge(spec, earlier).value.ok
    ensures CheckOf(spec.rules[0], 0, earlier).verdict == Some(Sat)
    ensures Grows(earlier, later)
    ensures Judge(spec, later).Some? && !Judge(spec, later).value.ok
  {
    var r := Order(names, within, skew);
    var s, early := AllInTurn(names, Lead(within)), Early(names, skew);
    InTurnIsSat(names, within, skew);
    EarlyBreaksOrder(names, within, skew);
    hide StreamSorted, LatchAfter, Holds, UpTo, Judge, CheckOf, AllInTurn, Early, Lead;
    OneRuleVerdict(r, s);
    OneRuleVerdict(r, s + [early]);
    spec, earlier, later := OneRuleGate(r), FullRead(s), FullRead(s + [early]);
    assert multiset(s) <= multiset(s + [early]);
  }
}
