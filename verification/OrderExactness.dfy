/**
 `must_order`: when `pend` is undecided, and when the monitor says at once what every
 extension agrees on. Both conditions are read off the rule.
 */
module OrderExactness {
  import opened Options
  import opened Events
  import opened Rules
  import opened Monitors
  import opened OrderInevitability

  // At most two names, and a bound they can meet whatever came first.
  predicate OrderExact(names: seq<string>, within: Option<real>, skew: Option<real>) {
    && names != [] && |names| <= 2
    && (|names| == 1 || !RunsBackwards(within) || WindowExcusesStep(within, skew))
  }

  // Or no bound at all: then the names still missing can always be fitted in.
  predicate OrderPendExact(names: seq<string>, within: Option<real>, skew: Option<real>) {
    names != [] && (within.None? || OrderExact(names, within, skew))
  }

  // Filling in the missing names -------------------------------------------------------

  function Renamed(name: string, e: Event): Event {
    Event(Some(name), e.timestamp, e.sequence, e.emit, map[])
  }

  // One event for every listed name.
  ghost predicate Covering(names: seq<string>, t: seq<Event>) {
    |t| == |names| && forall i :: 0 <= i < |t| ==> Occurs(names[i], t[i])
  }

  // The names seen keep their first occurrence, the others get theirs from t.
  lemma CoveredFirst(names: seq<string>, s: seq<Event>, t: seq<Event>, i: int)
    requires Distinct(names) && Covering(names, t) && 0 <= i < |names|
    ensures FirstOf(names[i], s + t) == if FirstOf(names[i], s).Some? then FirstOf(names[i], s) else Some(t[i])
  {
    FirstOfExtends(names[i], s, t);
    OccurrenceIsFound(names[i], t, t[i]);
    var e := FirstOf(names[i], t).value;
    var k :| 0 <= k < |t| && t[k] == e;
    assert Occurs(names[k], t[k]);
  }

  // What a pair test looks at.
  predicate SameStamp(e: Event, f: Event) {
    e.timestamp == f.timestamp && e.sequence == f.sequence && e.emit == f.emit
  }

  lemma PairOkBySameStamp(skew: Option<real>, a: Event, b: Event, c: Event, d: Event)
    requires a.timestamp.Some? && b.timestamp.Some? && SameStamp(a, c) && SameStamp(b, d)
    ensures PairOk(skew, a, b) == PairOk(skew, c, d)
  {
  }

  lemma PairOkReflexive(skew: Option<real>, a: Event, b: Event)
    requires a.timestamp.Some? && SameStamp(a, b)
    ensures PairOk(skew, a, b)
  {
  }

  // The last name seen at or before i, and the first seen from k on.
  function SeenBefore(names: seq<string>, s: seq<Event>, i: int): (e: Option<Event>)
    requires -1 <= i < |names|
    ensures e.Some? ==> e.value.timestamp.Some?
    decreases i + 1
  {
    if i < 0 then None
    else if FirstOf(names[i], s).Some? then FirstOf(names[i], s)
    else SeenBefore(names, s, i - 1)
  }

  function SeenFrom(names: seq<string>, s: seq<Event>, k: int): (e: Option<Event>)
    requires 0 <= k <= |names|
    ensures e.Some? ==> e.value.timestamp.Some?
    decreases |names| - k
  {
    if k == |names| then None
    else if FirstOf(names[k], s).Some? then FirstOf(names[k], s)
    else SeenFrom(names, s, k + 1)
  }

  // The stamp a name takes: its own, else that of the nearest name before it, else of the
  // first name seen, else the origin.
  function Model(names: seq<string>, s: seq<Event>, i: int): (e: Event)
    requires 0 <= i < |names|
    ensures e.timestamp.Some?
  {
    var before, after := SeenBefore(names, s, i), SeenFrom(names, s, 0);
    if before.Some? then before.value
    else if after.Some? then after.value
    else Event(None, Some(0), None, None, map[])
  }

  function Filled(names: seq<string>, s: seq<Event>): seq<Event> {
    seq(|names|, i requires 0 <= i < |names| => Renamed(names[i], Model(names, s, i)))
  }

  lemma {:induction false} SeenBeforeIsNeighbour(names: seq<string>, s: seq<Event>, i: int) returns (j: int)
    requires 0 <= i < |names| - 1 && SeenBefore(names, s, i).Some? && FirstOf(names[i + 1], s).Some?
    ensures SeenNeighbours(names, s, j, i + 1) && FirstOf(names[j], s) == SeenBefore(names, s, i)
  {
    hide FirstOf;
    j := i;
    while FirstOf(names[j], s).None?
      invariant 0 <= j <= i
      invariant SeenBefore(names, s, j) == SeenBefore(names, s, i)
      invariant forall k :: j < k <= i ==> FirstOf(names[k], s).None?
      decreases j
    {
      j := j - 1;
    }
  }

  lemma {:induction false} NothingBefore(names: seq<string>, s: seq<Event>, i: int, k: int)
    requires -1 <= i < |names| - 1 && SeenBefore(names, s, i).None? && 0 <= k <= i + 1
    ensures SeenFrom(names, s, k) == SeenFrom(names, s, i + 1)
    decreases i + 1 - k
  {
    hide FirstOf;
    if k <= i {
      NoneSeenBefore(names, s, i, k);
      NothingBefore(names, s, i, k + 1);
    }
  }

  lemma {:induction false} NoneSeenBefore(names: seq<string>, s: seq<Event>, i: int, k: int)
    requires 0 <= k <= i < |names| && SeenBefore(names, s, i).None?
    ensures FirstOf(names[k], s).None?
  {
    hide FirstOf;
    if k < i { NoneSeenBefore(names, s, i - 1, k); }
  }

  // Neighbouring models are in order, because the names seen were.
  lemma ModelsAreInOrder(names: seq<string>, skew: Option<real>, s: seq<Event>, i: int)
    requires OrderedSoFar(names, skew, s) && 0 <= i < |names| - 1
    ensures PairOk(skew, Model(names, s, i), Model(names, s, i + 1))
  {
    hide FirstOf, PairOk;
    if FirstOf(names[i + 1], s).Some? && SeenBefore(names, s, i).Some? {
      var j := SeenBeforeIsNeighbour(names, s, i);
    } else {
      if SeenBefore(names, s, i).None? { NothingBefore(names, s, i, 0); }
      PairOkReflexive(skew, Model(names, s, i), Model(names, s, i + 1));
    }
  }

  // Without a bound that counts, the filled stream passes.
  lemma FilledPasses(names: seq<string>, within: Option<real>, skew: Option<real>, s: seq<Event>)
    requires Distinct(names) && (within.None? || |names| == 1) && OrderedSoFar(names, skew, s)
    ensures Holds(Order(names, within, skew), s + Filled(names, s))
  {
    hide FirstOf, PairOk, Model, OrderedSoFar;
    var t := Filled(names, s);
    var u := s + t;
    forall i | 0 <= i < |names|
      ensures FirstOf(names[i], u).Some? && SameStamp(FirstOf(names[i], u).value, Model(names, s, i))
    {
      CoveredFirst(names, s, t, i);
      OwnStamp(names, s, i);
    }
    forall i | 0 <= i < |names| - 1
      ensures PairOk(skew, FirstOf(names[i], u).value, FirstOf(names[i + 1], u).value)
    {
      ModelsAreInOrder(names, skew, s, i);
      PairOkBySameStamp(skew, Model(names, s, i), Model(names, s, i + 1),
                        FirstOf(names[i], u).value, FirstOf(names[i + 1], u).value);
    }
  }

  lemma OwnStamp(names: seq<string>, s: seq<Event>, i: int)
    requires 0 <= i < |names|
    ensures FirstOf(names[i], s).Some? ==> Model(names, s, i) == FirstOf(names[i], s).value
  {
    hide FirstOf;
  }

  // Two names under a bound: the missing one steps back from the other as far as need be.
  function StepBack(within: Option<real>, skew: Option<real>): int
    requires !RunsBackwards(within) || WindowExcusesStep(within, skew)
  {
    if RunsBackwards(within) then WindowUs(skew) else 0
  }

  function Shifted(name: string, e: Event, us: int, shift: int): Event
    requires e.timestamp.Some?
  {
    Event(Some(name), Some(e.timestamp.value + shift), e.sequence, if us == 0 then e.emit else None, map[])
  }

  lemma ShiftedPairIsFine(within: Option<real>, skew: Option<real>, a: Event, b: Event)
    requires !RunsBackwards(within) || WindowExcusesStep(within, skew)
    requires a.timestamp.Some? && b.timestamp.Some?
    requires a.timestamp.value - b.timestamp.value == StepBack(within, skew)
    requires StepBack(within, skew) == 0 ==> SameStamp(a, b)
    requires StepBack(within, skew) != 0 ==> a.emit.None? || b.emit.None?
    ensures PairOk(skew, a, b) && GapOk(within, a, b)
  {
    assert RunsBackwards(within) ==> StepBack(within, skew) as real <= skew.value * 1000.0;
    assert !RunsBackwards(within) && within.Some? ==> within.value * 1000000.0 >= 0.0;
  }

  function Completed(names: seq<string>, within: Option<real>, skew: Option<real>, s: seq<Event>): seq<Event>
    requires |names| == 2 && (!RunsBackwards(within) || WindowExcusesStep(within, skew))
  {
    var a, b, us := FirstOf(names[0], s), FirstOf(names[1], s), StepBack(within, skew);
    var origin := Event(None, Some(0), None, None, map[]);
    if a.Some? then [Renamed(names[0], a.value), Shifted(names[1], a.value, us, -us)]
    else if b.Some? then [Shifted(names[0], b.value, us, us), Renamed(names[1], b.value)]
    else [Shifted(names[0], origin, us, us), Renamed(names[1], origin)]
  }

  lemma CompletedPasses(names: seq<string>, within: Option<real>, skew: Option<real>, s: seq<Event>)
    requires Distinct(names) && |names| == 2 && (!RunsBackwards(within) || WindowExcusesStep(within, skew))
    requires !AllSeen(names, s)
    ensures Holds(Order(names, within, skew), s + Completed(names, within, skew, s))
  {
    var t := Completed(names, within, skew, s);
    hide FirstOf, PairOk, GapOk, RunsBackwards, WindowExcusesStep, StepBack, Holds;
    CoveredFirst(names, s, t, 0);
    CoveredFirst(names, s, t, 1);
    var u := s + t;
    ShiftedPairIsFine(within, skew, FirstOf(names[0], u).value, FirstOf(names[1], u).value);
    OnePairPasses(names, within, skew, u);
  }

  lemma OnePairPasses(names: seq<string>, within: Option<real>, skew: Option<real>, u: seq<Event>)
    requires |names| == 2 && FirstOf(names[0], u).Some? && FirstOf(names[1], u).Some?
    requires PairOk(skew, FirstOf(names[0], u).value, FirstOf(names[1], u).value)
    requires GapOk(within, FirstOf(names[0], u).value, FirstOf(names[1], u).value)
    ensures Holds(Order(names, within, skew), u)
  {
    hide FirstOf, PairOk, GapOk;
  }

  // While `pend`, both outcomes are reachable.
  lemma PendCanPass(names: seq<string>, within: Option<real>, skew: Option<real>, s: seq<Event>) returns (t: seq<Event>)
    requires Distinct(names) && OrderPendExact(names, within, skew) && Decide(Order(names, within, skew), s) == Pend
    ensures Holds(Order(names, within, skew), s + t)
  {
    hide FirstOf, PairOk, RunsBackwards, WindowExcusesStep, OrderedSoFar, GapsOk, Ordered;
    if within.None? || |names| == 1 {
      FilledPasses(names, within, skew, s);
      t := Filled(names, s);
    } else {
      CompletedPasses(names, within, skew, s);
      t := Completed(names, within, skew, s);
    }
  }

  lemma PendCanFail(names: seq<string>, within: Option<real>, skew: Option<real>, s: seq<Event>)
    requires names != [] && Decide(Order(names, within, skew), s) == Pend
    ensures !Holds(Order(names, within, skew), s)
  {
    hide FirstOf, PairOk, OrderedSoFar, GapsOk;
  }

  // Sealed though pending -----------------------------------------------------------------

  // No extension passes, or none fails.
  ghost predicate Sealed(names: seq<string>, within: Option<real>, skew: Option<real>, s: seq<Event>) {
    || (forall t :: Holds(Order(names, within, skew), s + t))
    || (forall t :: !Holds(Order(names, within, skew), s + t))
  }

  lemma EmptyOrderHolds(within: Option<real>, skew: Option<real>)
    ensures Decide(Order([], within, skew), []) == Pend && Sealed([], within, skew, [])
  {
    assert forall t :: Holds(Order([], within, skew), [] + t);
  }

  lemma OneNameIsPend(names: seq<string>, within: Option<real>, skew: Option<real>, e: Event)
    requires Distinct(names) && |names| > 1 && Occurs(names[0], e)
    ensures Decide(Order(names, within, skew), [e]) == Pend
  {
    OneNameFirsts(names, e);
    hide FirstOf, PairOk, GapOk;
    assert FirstOf(names[1], [e]).None?;
    assert forall i, j :: !SeenNeighbours(names, [e], i, j);
  }

  // One unstamped name already rules a backward pair out, if no window excuses it.
  lemma UnstampedNameSealsBackwards(names: seq<string>, within: Option<real>, skew: Option<real>)
    returns (s: seq<Event>)
    requires Distinct(names) && |names| > 1 && RunsBackwards(within) && !WindowExcusesStep(within, skew)
    ensures Decide(Order(names, within, skew), s) == Pend && Sealed(names, within, skew, s)
  {
    s := [Stamped(names[0], None)];
    OneNameFirsts(names, s[0]);
    OneNameIsPend(names, within, skew, s[0]);
    hide Decide, FirstOf, RunsBackwards, WindowExcusesStep, Holds;
    forall t ensures !Holds(Order(names, within, skew), s + t) {
      FirstOfExtends(names[0], s, t);
      if Holds(Order(names, within, skew), s + t) {
        BackwardsMeansStamped(names, within, skew, s + t, 0);
      }
    }
  }

  lemma OneNameFirsts(names: seq<string>, e: Event)
    requires Distinct(names) && names != [] && Occurs(names[0], e)
    ensures forall i :: 0 <= i < |names| ==> FirstOf(names[i], [e]) == if i == 0 then Some(e) else None
  {
    forall i | 0 <= i < |names| ensures FirstOf(names[i], [e]) == if i == 0 then Some(e) else None {
      FirstOfStep(names[i], [], e);
      assert [] + [e] == [e];
    }
  }

  // The least natural number above x.
  function Above(x: real): (n: nat)
    ensures n as real > x
  {
    if x < 0.0 then 0 else x.Floor + 1
  }

  // The first name, and the third further away than two bounds reach.
  function FarApart(names: seq<string>, within: Option<real>): seq<Event>
    requires |names| > 2 && within.Some?
  {
    [Event(Some(names[0]), Some(0), None, Some(1), map[]),
     Event(Some(names[2]), Some(Above(2.0 * Micros(within.value))), None, Some(2), map[])]
  }

  lemma FarApartFirsts(names: seq<string>, within: Option<real>, i: int)
    requires Distinct(names) && |names| > 2 && within.Some? && 0 <= i < |names|
    ensures var s := FarApart(names, within);
      FirstOf(names[i], s) == if i == 0 then Some(s[0]) else if i == 2 then Some(s[1]) else None
  {
    var s := FarApart(names, within);
    FirstOfStep(names[i], [], s[0]);
    FirstOfStep(names[i], [s[0]], s[1]);
    assert [] + [s[0]] == [s[0]] && [s[0]] + [s[1]] == s;
  }

  lemma FarApartIsPend(names: seq<string>, within: Option<real>, skew: Option<real>)
    requires Distinct(names) && |names| > 2 && within.Some?
    ensures Decide(Order(names, within, skew), FarApart(names, within)) == Pend
  {
    forall i | 0 <= i < |names|
      ensures var s := FarApart(names, within);
        FirstOf(names[i], s) == if i == 0 then Some(s[0]) else if i == 2 then Some(s[1]) else None
    {
      FarApartFirsts(names, within, i);
    }
    hide FirstOf, Above;
    var s := FarApart(names, within);
    assert FirstOf(names[1], s).None?;
    forall i, j | SeenNeighbours(names, s, i, j)
      ensures PairOk(skew, FirstOf(names[i], s).value, FirstOf(names[j], s).value)
    {
      assert i == 0 && j == 2;
    }
  }

  // Whenever the name between comes, it is beyond the bound on one side.
  lemma FarApartIsSealed(names: seq<string>, within: Option<real>, skew: Option<real>)
    requires Distinct(names) && |names| > 2 && within.Some?
    ensures Sealed(names, within, skew, FarApart(names, within))
  {
    var s := FarApart(names, within);
    FarApartFirsts(names, within, 0);
    FarApartFirsts(names, within, 2);
    forall t ensures !Holds(Order(names, within, skew), s + t) {
      FirstOfExtends(names[0], s, t);
      FirstOfExtends(names[2], s, t);
      hide FirstOf, PairOk, Above;
      if Holds(Order(names, within, skew), s + t) {
        TwoBoundsDoNotReach(within, FirstOf(names[0], s + t).value, FirstOf(names[1], s + t).value,
                            FirstOf(names[1 + 1], s + t).value);
      }
    }
  }

  lemma TwoBoundsDoNotReach(within: Option<real>, a: Event, m: Event, b: Event)
    requires within.Some? && a.timestamp.Some? && m.timestamp.Some? && b.timestamp.Some?
    requires GapOk(within, a, m) && GapOk(within, m, b)
    ensures (b.timestamp.value - a.timestamp.value) as real <= 2.0 * Micros(within.value)
  {
  }

  // Every other rule is pending on a stream whose fate is sealed.
  lemma InexactOrderIsSealed(names: seq<string>, within: Option<real>, skew: Option<real>) returns (s: seq<Event>)
    requires Distinct(names) && !OrderPendExact(names, within, skew)
    ensures Decide(Order(names, within, skew), s) == Pend && Sealed(names, within, skew, s)
  {
    hide Decide, Sealed, RunsBackwards, WindowExcusesStep;
    if names == [] {
      EmptyOrderHolds(within, skew);
      s := [];
    } else if |names| == 2 {
      s := UnstampedNameSealsBackwards(names, within, skew);
    } else {
      FarApartIsPend(names, within, skew);
      FarApartIsSealed(names, within, skew);
      s := FarApart(names, within);
    }
  }

  // Three names or more without a bound: a `viol` that an extension still repairs.
  lemma LongOrderIsRepaired(names: seq<string>, skew: Option<real>) returns (p: seq<Event>, t: seq<Event>)
    requires Distinct(names) && |names| > 2
    ensures Decide(Order(names, None, skew), p) == Viol && Holds(Order(names, None, skew), p + t)
  {
    p, t := MixedPrefix(names), MixedRest(names);
    MixedPrefixIsViol(names, None, skew);
    MixedStreamHolds(names, None, skew);
  }
}
