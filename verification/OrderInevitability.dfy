/**
 `must_order`: when a latched verdict is inevitable. A latched `sat` always is. How far a
 latched `viol` is depends on the feed (in `stream_key` order or not, `_emit_seq` on all
 listed events or none, or mixed) and on the rule; for each kind of feed the condition on
 the rule is exact.
 */
module OrderInevitability {
  import opened Options
  import opened Events
  import opened Rules
  import opened Monitors

  // `_emit_seq` on every timestamped listed event, or on none.
  ghost predicate UniformEmit(names: seq<string>, s: seq<Event>) {
    || (forall e, i :: e in s && 0 <= i < |names| && Occurs(names[i], e) ==> e.emit.Some?)
    || (forall e, i :: e in s && 0 <= i < |names| && Occurs(names[i], e) ==> e.emit.None?)
  }

  lemma {:induction false} FirstOfExtends(name: string, s: seq<Event>, t: seq<Event>)
    ensures FirstOf(name, s).Some? ==> FirstOf(name, s + t) == FirstOf(name, s)
    ensures FirstOf(name, s).None? ==> FirstOf(name, s + t) == FirstOf(name, t)
  {
    if t == [] {
      assert s + t == s;
    } else {
      hide FirstOf;
      var u := t[..|t| - 1];
      FirstOfExtends(name, s, u);
      FirstOfStep(name, s + u, t[|t| - 1]);
      FirstOfStep(name, u, t[|t| - 1]);
      assert s + t == (s + u) + [t[|t| - 1]] && t == u + [t[|t| - 1]];
    }
  }

  lemma {:induction false} OccurrenceIsFound(name: string, s: seq<Event>, e: Event)
    requires e in s && Occurs(name, e)
    ensures FirstOf(name, s).Some?
  {
    var k := |s| - 1;
    if e != s[k] {
      assert e in s[..k];
      OccurrenceIsFound(name, s[..k], e);
    }
  }

  // Once all names are there in order and in time, nothing can change that.
  lemma SatIsFinal(names: seq<string>, within: Option<real>, skew: Option<real>, p: seq<Event>, t: seq<Event>)
    requires Decide(Order(names, within, skew), p) == Sat
    ensures Holds(Order(names, within, skew), p + t)
  {
    forall i | 0 <= i < |names| ensures FirstOf(names[i], p + t) == FirstOf(names[i], p) {
      FirstOfExtends(names[i], p, t);
    }
    forall i | 0 <= i < |names| - 1
      ensures PairOk(skew, FirstOf(names[i], p).value, FirstOf(names[i + 1], p).value)
    {
      assert SeenNeighbours(names, p, i, i + 1);
    }
  }

  lemma GapViolationIsFinal(names: seq<string>, within: Option<real>, skew: Option<real>, p: seq<Event>, t: seq<Event>)
    requires !GapsOk(names, within, p)
    ensures !GapsOk(names, within, p + t)
  {
    var i :| 0 <= i < |names| - 1 && FirstOf(names[i], p).Some? && FirstOf(names[i + 1], p).Some?
             && !GapOk(within, FirstOf(names[i], p).value, FirstOf(names[i + 1], p).value);
    FirstOfExtends(names[i], p, t);
    FirstOfExtends(names[i + 1], p, t);
  }

  // A name first seen after the prefix has a stream key no smaller than any before it.
  lemma LaterFirstComesLater(p: seq<Event>, t: seq<Event>, a: string, b: string)
    requires InStreamOrder(p + t)
    requires FirstOf(a, p).Some? && FirstOf(b, p).None? && FirstOf(b, p + t).Some?
    ensures KeyLeq(FirstOf(a, p).value, FirstOf(b, p + t).value)
  {
    FirstOfExtends(b, p, t);
    var e, f := FirstOf(a, p).value, FirstOf(b, t).value;
    var i :| 0 <= i < |p| && p[i] == e;
    var j :| 0 <= j < |t| && t[j] == f;
    assert (p + t)[i] == e && (p + t)[|p| + j] == f;
  }

  // The last event before b in a chain that starts too late for b is itself too late.
  lemma TooLateStaysTooLate(skew: Option<real>, a: Event, m: Event, b: Event)
    requires a.timestamp.Some? && m.timestamp.Some? && b.timestamp.Some?
    requires a.emit.None? || b.emit.None?
    requires m.emit.None? || b.emit.None?
    requires KeyLeq(a, m) && !PairOk(skew, a, b)
    ensures !PairOk(skew, m, b)
  {
  }

  // Emit sequences that step down over a range step down somewhere in it.
  lemma {:induction false} EmitDescentInside(es: seq<int>)
    requires |es| > 1 && es[0] > es[|es| - 1]
    ensures exists k :: 0 <= k < |es| - 1 && es[k] > es[k + 1]
  {
    var last := |es| - 1;
    if es[last - 1] <= es[last] {
      EmitDescentInside(es[..last]);
      var k :| 0 <= k < |es[..last]| - 1 && es[..last][k] > es[..last][k + 1];
      assert es[k] > es[k + 1];
    }
  }

  // Emit sequences carried by every name are in order over any range of an ordered stream.
  lemma StampedRangeChains(names: seq<string>, skew: Option<real>, u: seq<Event>, i: int, j: int)
    requires Ordered(names, skew, u) && 0 <= i < j < |names|
    requires forall k :: 0 <= k < |names| ==> FirstOf(names[k], u).value.emit.Some?
    ensures PairOk(skew, FirstOf(names[i], u).value, FirstOf(names[j], u).value)
  {
    hide FirstOf;
    var n := j - i + 1;
    var es := seq(n, k requires 0 <= k < n => FirstOf(names[i + k], u).value.emit.value);
    forall k | 0 <= k < n - 1 ensures es[k] <= es[k + 1] {
      assert PairOk(skew, FirstOf(names[i + k], u).value, FirstOf(names[i + k + 1], u).value);
    }
    if es[0] > es[n - 1] { EmitDescentInside(es); }
    assert es[0] == FirstOf(names[i], u).value.emit.value && es[n - 1] == FirstOf(names[j], u).value.emit.value;
  }

  // Without a window of a whole microsecond, pairs of unstamped events chain.
  predicate Bridges(skew: Option<real>) {
    skew.Some? && skew.value * 1000.0 >= 1.0
  }

  lemma UnstampedPairsChain(skew: Option<real>, a: Event, m: Event, b: Event)
    requires a.timestamp.Some? && m.timestamp.Some? && b.timestamp.Some?
    requires a.emit.None? && m.emit.None? && b.emit.None?
    requires !Bridges(skew) && PairOk(skew, a, m) && PairOk(skew, m, b)
    ensures PairOk(skew, a, b)
  {
  }

  lemma {:induction false} UnstampedRangeChains(names: seq<string>, skew: Option<real>, u: seq<Event>, i: int, j: int)
    requires Ordered(names, skew, u) && 0 <= i < j < |names| && !Bridges(skew)
    requires forall k :: 0 <= k < |names| ==> FirstOf(names[k], u).value.emit.None?
    ensures PairOk(skew, FirstOf(names[i], u).value, FirstOf(names[j], u).value)
  {
    hide FirstOf, PairOk, Bridges;
    assert PairOk(skew, FirstOf(names[j - 1], u).value, FirstOf(names[j - 1 + 1], u).value);
    if i < j - 1 {
      UnstampedRangeChains(names, skew, u, i, j - 1);
      UnstampedPairsChain(skew, FirstOf(names[i], u).value, FirstOf(names[j - 1], u).value, FirstOf(names[j], u).value);
    }
  }

  // When a `viol` stands ---------------------------------------------------------------

  // A negative bound: every listed name has to come strictly before the one listed ahead of it.
  predicate RunsBackwards(within: Option<real>) {
    within.Some? && within.value < 0.0
  }

  // The skew window excuses a step back in time of at least a microsecond that the bound
  // allows as well. Two such steps make a distance the window does not excuse.
  predicate WindowExcusesStep(within: Option<real>, skew: Option<real>) {
    && Bridges(skew)
    && (within.Some? ==> within.value * 1000000.0 >= -((skew.value * 1000.0).Floor as real))
  }

  // What keeps a `viol` from being repaired on the stream u.
  ghost predicate ViolStands(names: seq<string>, within: Option<real>, skew: Option<real>, u: seq<Event>) {
    || |names| <= 2
    || ((UniformEmit(names, u) || RunsBackwards(within)) && (InStreamOrder(u) || !WindowExcusesStep(within, skew)))
  }

  // A backward step between events not both stamped is in order only by the window's excuse.
  lemma BackwardStepNeedsExcuse(within: Option<real>, skew: Option<real>, a: Event, b: Event)
    requires a.timestamp.Some? && b.timestamp.Some? && (a.emit.None? || b.emit.None?)
    requires RunsBackwards(within) && GapOk(within, a, b) && PairOk(skew, a, b)
    ensures WindowExcusesStep(within, skew)
  {
    var step := a.timestamp.value - b.timestamp.value;
    assert within.value * 1000000.0 < 0.0;
    assert step >= 1 && step as real <= skew.value * 1000.0;
    assert (skew.value * 1000.0).Floor >= step;
  }

  // Without that excuse a backward rule passes only where every name is stamped.
  lemma BackwardsMeansStamped(names: seq<string>, within: Option<real>, skew: Option<real>, u: seq<Event>, k: int)
    requires RunsBackwards(within) && !WindowExcusesStep(within, skew)
    requires Holds(Order(names, within, skew), u) && |names| > 1 && 0 <= k < |names|
    ensures FirstOf(names[k], u).value.emit.Some?
  {
    hide FirstOf, PairOk, GapOk, RunsBackwards, WindowExcusesStep;
    var i := if k < |names| - 1 then k else k - 1;
    var a, b := FirstOf(names[i], u).value, FirstOf(names[i + 1], u).value;
    assert PairOk(skew, a, b) && GapOk(within, a, b);
    if a.emit.None? || b.emit.None? {
      BackwardStepNeedsExcuse(within, skew, a, b);
    }
  }

  // In stream order, a backward rule with a name missing after one that came cannot pass.
  lemma SkippedNameRulesOutBackwards(names: seq<string>, within: Option<real>, skew: Option<real>,
                                     p: seq<Event>, t: seq<Event>, i: int)
    requires InStreamOrder(p + t) && Holds(Order(names, within, skew), p + t)
    requires 0 <= i < |names| - 1 && FirstOf(names[i], p).Some? && FirstOf(names[i + 1], p).None?
    ensures !RunsBackwards(within)
  {
    FirstOfExtends(names[i], p, t);
    LaterFirstComesLater(p, t, names[i], names[i + 1]);
    hide FirstOf;
    assert GapOk(within, FirstOf(names[i], p + t).value, FirstOf(names[i + 1], p + t).value);
    assert within.Some? ==> within.value * 1000000.0 >= 0.0;
  }

  // Uniformly stamped first occurrences.
  ghost predicate FirstsStamped(names: seq<string>, u: seq<Event>) {
    forall k :: 0 <= k < |names| && FirstOf(names[k], u).Some? ==> FirstOf(names[k], u).value.emit.Some?
  }

  ghost predicate FirstsUnstamped(names: seq<string>, u: seq<Event>) {
    forall k :: 0 <= k < |names| && FirstOf(names[k], u).Some? ==> FirstOf(names[k], u).value.emit.None?
  }

  lemma UniformFirsts(names: seq<string>, u: seq<Event>)
    requires UniformEmit(names, u)
    ensures FirstsStamped(names, u) || FirstsUnstamped(names, u)
  {
    forall k | 0 <= k < |names| && FirstOf(names[k], u).Some?
      ensures FirstOf(names[k], u).value in u && Occurs(names[k], FirstOf(names[k], u).value)
    {
    }
  }

  // In order pairs on a passing stream, unstamped, with the later name's predecessor
  // arriving after the earlier name.
  lemma LateMiddleOrdersPair(names: seq<string>, skew: Option<real>, p: seq<Event>, t: seq<Event>, i: int, j: int)
    requires InStreamOrder(p + t) && Ordered(names, skew, p + t) && FirstsUnstamped(names, p + t)
    requires SeenNeighbours(names, p, i, j) && i < j - 1
    ensures PairOk(skew, FirstOf(names[i], p + t).value, FirstOf(names[j], p + t).value)
  {
    var u := p + t;
    FirstOfExtends(names[i], p, t);
    LaterFirstComesLater(p, t, names[i], names[j - 1]);
    hide FirstOf;
    var a, m, b := FirstOf(names[i], u).value, FirstOf(names[j - 1], u).value, FirstOf(names[j - 1 + 1], u).value;
    assert PairOk(skew, m, b);
    if !PairOk(skew, a, b) { TooLateStaysTooLate(skew, a, m, b); }
  }

  // Where a `viol` stands, any two names that were neighbours when they occurred are in
  // order on every extension that passes.
  lemma PassingMeansPairOk(names: seq<string>, within: Option<real>, skew: Option<real>,
                           p: seq<Event>, t: seq<Event>, i: int, j: int)
    requires ViolStands(names, within, skew, p + t) && Holds(Order(names, within, skew), p + t)
    requires SeenNeighbours(names, p, i, j)
    ensures PairOk(skew, FirstOf(names[i], p + t).value, FirstOf(names[j], p + t).value)
  {
    hide FirstOf, PairOk, InStreamOrder, UniformEmit, WindowExcusesStep, GapsOk;
    var u := p + t;
    if j == i + 1 {
      assert PairOk(skew, FirstOf(names[i], u).value, FirstOf(names[i + 1], u).value);
    } else if InStreamOrder(u) {
      SkippedNameRulesOutBackwards(names, within, skew, p, t, i);
      UniformFirsts(names, u);
      if FirstsStamped(names, u) {
        StampedRangeChains(names, skew, u, i, j);
      } else {
        LateMiddleOrdersPair(names, skew, p, t, i, j);
      }
    } else if RunsBackwards(within) {
      forall k | 0 <= k < |names| ensures FirstOf(names[k], u).value.emit.Some? {
        BackwardsMeansStamped(names, within, skew, u, k);
      }
      StampedRangeChains(names, skew, u, i, j);
    } else {
      NoExcuseNoBridge(within, skew);
      UniformFirsts(names, u);
      if FirstsStamped(names, u) {
        StampedRangeChains(names, skew, u, i, j);
      } else {
        UnstampedRangeChains(names, skew, u, i, j);
      }
    }
  }

  lemma NoExcuseNoBridge(within: Option<real>, skew: Option<real>)
    requires !WindowExcusesStep(within, skew) && !RunsBackwards(within)
    ensures !Bridges(skew)
  {
  }

  // A broken pair of occurred neighbours breaks every extension on which a `viol` stands.
  lemma OrderViolationIsFinal(names: seq<string>, within: Option<real>, skew: Option<real>,
                              p: seq<Event>, t: seq<Event>, i: int, j: int)
    requires ViolStands(names, within, skew, p + t) && SeenNeighbours(names, p, i, j)
    requires !PairOk(skew, FirstOf(names[i], p).value, FirstOf(names[j], p).value)
    ensures !Holds(Order(names, within, skew), p + t)
  {
    FirstOfExtends(names[i], p, t);
    FirstOfExtends(names[j], p, t);
    hide FirstOf, PairOk, ViolStands, Holds;
    if Holds(Order(names, within, skew), p + t) {
      PassingMeansPairOk(names, within, skew, p, t, i, j);
    }
  }

  lemma ViolIsFinal(names: seq<string>, within: Option<real>, skew: Option<real>, p: seq<Event>, t: seq<Event>)
    requires ViolStands(names, within, skew, p + t)
    requires Decide(Order(names, within, skew), p) == Viol
    ensures !Holds(Order(names, within, skew), p + t)
  {
    hide ViolStands;
    if !GapsOk(names, within, p) {
      GapViolationIsFinal(names, within, skew, p, t);
    } else {
      hide FirstOf, PairOk, GapsOk;
      var i, j :| 0 <= i < j < |names| && SeenNeighbours(names, p, i, j)
                  && !PairOk(skew, FirstOf(names[i], p).value, FirstOf(names[j], p).value);
      OrderViolationIsFinal(names, within, skew, p, t, i, j);
    }
  }

  // The latch was set by the decision on some prefix.
  lemma {:induction false} LatchComesFromPrefix(r: Rule, fed: seq<Event>, at: seq<int>) returns (n: nat)
    requires |fed| == |at| && LatchAfter(r, fed, at).verdict != Pend
    ensures n <= |fed| && Decide(r, fed[..n]) == LatchAfter(r, fed, at).verdict
  {
    if fed == [] {
      n := 0;
    } else {
      var last := |fed| - 1;
      if LatchAfter(r, fed[..last], at[..last]).verdict != Pend {
        n := LatchComesFromPrefix(r, fed[..last], at[..last]);
        assert fed[..last][..n] == fed[..n];
      } else {
        n := |fed|;
        assert fed[..n] == fed;
      }
    }
  }

  // A latched `sat` is the outcome of every extension, a latched `viol` of every extension
  // on which it stands.
  lemma LatchedOrderIsInevitable(names: seq<string>, within: Option<real>, skew: Option<real>,
                                 fed: seq<Event>, at: seq<int>, more: seq<Event>)
    requires |fed| == |at|
    ensures var v := LatchAfter(Order(names, within, skew), fed, at).verdict;
      && (v == Sat ==> Holds(Order(names, within, skew), fed + more))
      && (v == Viol && ViolStands(names, within, skew, fed + more) ==> !Holds(Order(names, within, skew), fed + more))
  {
    hide Decide, Holds, LatchAfter, ViolStands;
    var r := Order(names, within, skew);
    if LatchAfter(r, fed, at).verdict != Pend {
      var n := LatchComesFromPrefix(r, fed, at);
      var rest := fed[n..] + more;
      assert fed[..n] + rest == fed + more;
      if Decide(r, fed[..n]) == Sat {
        SatIsFinal(names, within, skew, fed[..n], rest);
      } else if ViolStands(names, within, skew, fed + more) {
        ViolIsFinal(names, within, skew, fed[..n], rest);
      }
    }
  }

  // Without uniform stamps -------------------------------------------------------

  function Stamped(name: string, emit: Option<int>): Event {
    Event(Some(name), Some(1), None, emit, map[])
  }

  // Third listed name emitted before the first, then everything else unstamped, all at
  // one timestamp.
  function MixedPrefix(names: seq<string>): seq<Event>
    requires |names| > 2
  {
    [Stamped(names[2], Some(1)), Stamped(names[0], Some(2))]
  }

  function MixedRest(names: seq<string>): seq<Event> {
    seq(|names|, i requires 0 <= i < |names| => Stamped(names[i], None))
  }

  ghost predicate Distinct(names: seq<string>) {
    forall i, j :: 0 <= i < j < |names| ==> names[i] != names[j]
  }

  // What the first occurrences of the mixed stream look like.
  lemma MixedFirsts(names: seq<string>, i: int)
    requires |names| > 2 && Distinct(names) && 0 <= i < |names|
    ensures FirstOf(names[i], MixedPrefix(names)) ==
              if i == 2 then Some(Stamped(names[2], Some(1)))
              else if i == 0 then Some(Stamped(names[0], Some(2))) else None
    ensures var first := FirstOf(names[i], MixedPrefix(names) + MixedRest(names));
      && first.Some? && first.value.timestamp == Some(1) && first.value.sequence == None
      && (i == 1 ==> first.value.emit == None)
      && (i != 0 && i != 2 ==> first.value.emit == None)
  {
    var p, t := MixedPrefix(names), MixedRest(names);
    FirstOfStep(names[i], [], p[0]);
    FirstOfStep(names[i], [p[0]], p[1]);
    assert [] + [p[0]] == [p[0]] && [p[0]] + [p[1]] == p;
    FirstOfExtends(names[i], p, t);
    assert t[i] in t && Occurs(names[i], t[i]);
    OccurrenceIsFound(names[i], t, t[i]);
    var e := FirstOf(names[i], t).value;
    assert e in t;
  }

  lemma MixedPrefixIsViol(names: seq<string>, within: Option<real>, skew: Option<real>)
    requires |names| > 2 && Distinct(names)
    ensures Decide(Order(names, within, skew), MixedPrefix(names)) == Viol
  {
    var p := MixedPrefix(names);
    MixedFirsts(names, 0);
    MixedFirsts(names, 1);
    MixedFirsts(names, 2);
    hide FirstOf;
    assert SeenNeighbours(names, p, 0, 2);
    assert !PairOk(skew, FirstOf(names[0], p).value, FirstOf(names[2], p).value);
  }

  lemma MixedPairIsFine(names: seq<string>, within: Option<real>, skew: Option<real>, i: int)
    requires |names| > 2 && Distinct(names) && !RunsBackwards(within) && 0 <= i < |names| - 1
    ensures var u := MixedPrefix(names) + MixedRest(names);
      && FirstOf(names[i], u).Some? && FirstOf(names[i + 1], u).Some?
      && PairOk(skew, FirstOf(names[i], u).value, FirstOf(names[i + 1], u).value)
      && GapOk(within, FirstOf(names[i], u).value, FirstOf(names[i + 1], u).value)
  {
    MixedFirsts(names, i);
    MixedFirsts(names, i + 1);
    hide FirstOf;
  }

  lemma MixedStreamHolds(names: seq<string>, within: Option<real>, skew: Option<real>)
    requires |names| > 2 && Distinct(names) && !RunsBackwards(within)
    ensures InStreamOrder(MixedPrefix(names) + MixedRest(names))
    ensures Holds(Order(names, within, skew), MixedPrefix(names) + MixedRest(names))
  {
    hide FirstOf, PairOk, GapOk;
    var u := MixedPrefix(names) + MixedRest(names);
    forall i | 0 <= i < |names| ensures FirstOf(names[i], u).Some? {
      MixedFirsts(names, i);
    }
    forall i | 0 <= i < |names| - 1
      ensures PairOk(skew, FirstOf(names[i], u).value, FirstOf(names[i + 1], u).value)
      ensures GapOk(within, FirstOf(names[i], u).value, FirstOf(names[i + 1], u).value)
    {
      MixedPairIsFine(names, within, skew, i);
    }
  }

  // Out of stream order -----------------------------------------------------------------

  // The listed names at one step of w microseconds each, latest first.
  function Backwards(names: seq<string>, w: int, i: int): Event
    requires 0 <= i < |names|
  {
    Event(Some(names[i]), Some((|names| - i) * w), None, None, map[])
  }

  // The third name and then the first, two steps apart.
  function SkippingPrefix(names: seq<string>, w: int): seq<Event>
    requires |names| > 2
  {
    [Backwards(names, w, 2), Backwards(names, w, 0)]
  }

  // The others, among them the one between.
  function SkippedRest(names: seq<string>, w: int): seq<Event>
    requires |names| > 2
  {
    [Backwards(names, w, 1)] + seq(|names| - 3, k requires 0 <= k < |names| - 3 => Backwards(names, w, k + 3))
  }

  lemma SkippedRestAt(names: seq<string>, w: int, k: int)
    requires |names| > 2 && 0 <= k < |names| - 2
    ensures |SkippedRest(names, w)| == |names| - 2
    ensures SkippedRest(names, w)[k] == Backwards(names, w, if k == 0 then 1 else k + 2)
  {
    hide Backwards;
  }

  lemma SkippedRestHolds(names: seq<string>, w: int, i: int)
    requires |names| > 2 && 0 <= i < |names| && i != 0 && i != 2
    ensures Backwards(names, w, i) in SkippedRest(names, w)
  {
    hide Backwards, SkippedRest;
    SkippedRestAt(names, w, if i == 1 then 0 else i - 2);
  }

  lemma SkippedRestMember(names: seq<string>, w: int, e: Event) returns (i: int)
    requires |names| > 2 && e in SkippedRest(names, w)
    ensures 0 <= i < |names| && i != 0 && i != 2 && e == Backwards(names, w, i)
  {
    hide Backwards, SkippedRest;
    SkippedRestAt(names, w, 0);
    var k :| 0 <= k < |SkippedRest(names, w)| && SkippedRest(names, w)[k] == e;
    SkippedRestAt(names, w, k);
    i := if k == 0 then 1 else k + 2;
  }

  lemma SkippingFirsts(names: seq<string>, w: int, i: int)
    requires |names| > 2 && Distinct(names) && 0 <= i < |names|
    ensures FirstOf(names[i], SkippingPrefix(names, w))
         == if i == 0 || i == 2 then Some(Backwards(names, w, i)) else None
    ensures FirstOf(names[i], SkippingPrefix(names, w) + SkippedRest(names, w)) == Some(Backwards(names, w, i))
  {
    var p, t := SkippingPrefix(names, w), SkippedRest(names, w);
    FirstOfStep(names[i], [], p[0]);
    FirstOfStep(names[i], [p[0]], p[1]);
    assert [] + [p[0]] == [p[0]] && [p[0]] + [p[1]] == p;
    FirstOfExtends(names[i], p, t);
    if i != 0 && i != 2 {
      var e := Backwards(names, w, i);
      SkippedRestHolds(names, w, i);
      OccurrenceIsFound(names[i], t, e);
      var j := SkippedRestMember(names, w, FirstOf(names[i], t).value);
    }
  }

  // The whole microseconds of the window.
  function WindowUs(skew: Option<real>): int
    requires skew.Some?
  {
    (skew.value * 1000.0).Floor
  }

  lemma SkippingPrefixIsViol(names: seq<string>, within: Option<real>, skew: Option<real>)
    requires |names| > 2 && Distinct(names) && WindowExcusesStep(within, skew)
    ensures Decide(Order(names, within, skew), SkippingPrefix(names, WindowUs(skew))) == Viol
  {
    var w := WindowUs(skew);
    var p := SkippingPrefix(names, w);
    SkippingFirsts(names, w, 0);
    SkippingFirsts(names, w, 1);
    SkippingFirsts(names, w, 2);
    hide FirstOf;
    TwoStepsAreTooFar(names, within, skew);
    assert SeenNeighbours(names, p, 0, 2);
  }

  lemma TwoStepsAreTooFar(names: seq<string>, within: Option<real>, skew: Option<real>)
    requires |names| > 2 && WindowExcusesStep(within, skew)
    ensures !PairOk(skew, Backwards(names, WindowUs(skew), 0), Backwards(names, WindowUs(skew), 2))
  {
    var w, n := WindowUs(skew), |names|;
    assert n * w - (n - 2) * w == w + w;
    assert w >= 1 && (w + w) as real > skew.value * 1000.0;
  }

  lemma OneStepIsExcused(names: seq<string>, within: Option<real>, skew: Option<real>, i: int)
    requires WindowExcusesStep(within, skew) && 0 <= i < |names| - 1
    ensures var a, b := Backwards(names, WindowUs(skew), i), Backwards(names, WindowUs(skew), i + 1);
      PairOk(skew, a, b) && GapOk(within, a, b)
  {
    var w, n := WindowUs(skew), |names|;
    assert (n - i) * w - (n - (i + 1)) * w == w;
  }

  lemma SkippingFeedIsUnstamped(names: seq<string>, w: int)
    requires |names| > 2
    ensures UniformEmit(names, SkippingPrefix(names, w) + SkippedRest(names, w))
  {
    hide Occurs, SkippedRest;
    forall e | e in SkippingPrefix(names, w) + SkippedRest(names, w) ensures e.emit.None? {
      if e in SkippedRest(names, w) {
        var i := SkippedRestMember(names, w, e);
      }
    }
  }

  lemma SkippingFeedHolds(names: seq<string>, within: Option<real>, skew: Option<real>)
    requires |names| > 2 && Distinct(names) && WindowExcusesStep(within, skew)
    ensures var w := WindowUs(skew);
      Holds(Order(names, within, skew), SkippingPrefix(names, w) + SkippedRest(names, w))
  {
    hide FirstOf, PairOk, GapOk, Backwards, WindowUs, SkippingPrefix, SkippedRest;
    var w := WindowUs(skew);
    var u := SkippingPrefix(names, w) + SkippedRest(names, w);
    forall i | 0 <= i < |names| ensures FirstOf(names[i], u) == Some(Backwards(names, w, i)) {
      SkippingFirsts(names, w, i);
    }
    forall i | 0 <= i < |names| - 1
      ensures PairOk(skew, FirstOf(names[i], u).value, FirstOf(names[i + 1], u).value)
      ensures GapOk(within, FirstOf(names[i], u).value, FirstOf(names[i + 1], u).value)
    {
      OneStepIsExcused(names, within, skew, i);
    }
  }

  // The name between arrives late and repairs the violation, on a uniformly stamped feed.
  lemma LateNameRepairsViol(names: seq<string>, within: Option<real>, skew: Option<real>)
    requires |names| > 2 && Distinct(names) && WindowExcusesStep(within, skew)
    ensures var p, t := SkippingPrefix(names, WindowUs(skew)), SkippedRest(names, WindowUs(skew));
      && UniformEmit(names, p + t)
      && Decide(Order(names, within, skew), p) == Viol && Holds(Order(names, within, skew), p + t)
  {
    hide UniformEmit, Decide, Holds;
    SkippingFeedIsUnstamped(names, WindowUs(skew));
    SkippingPrefixIsViol(names, within, skew);
    SkippingFeedHolds(names, within, skew);
  }

  // The exact conditions ------------------------------------------------------------------

  // A feed of the kind asked for: in stream order, uniformly stamped, both or any.
  ghost predicate Feed(ordered: bool, uniform: bool, names: seq<string>, u: seq<Event>) {
    (ordered ==> InStreamOrder(u)) && (uniform ==> UniformEmit(names, u))
  }

  ghost predicate ViolIsInevitable(names: seq<string>, within: Option<real>, skew: Option<real>,
                                   ordered: bool, uniform: bool)
  {
    forall p, t :: Feed(ordered, uniform, names, p + t) && Decide(Order(names, within, skew), p) == Viol
      ==> !Holds(Order(names, within, skew), p + t)
  }

  // For each kind of feed, a `viol` is inevitable exactly for these rules: at most two
  // names; or feeds uniformly stamped or a rule running backwards, and besides feeds in
  // order or a rule whose window excuses no step. All of it can be read off the rule.
  lemma ViolInevitableIff(names: seq<string>, within: Option<real>, skew: Option<real>, ordered: bool, uniform: bool)
    requires Distinct(names)
    ensures ViolIsInevitable(names, within, skew, ordered, uniform) <==>
      (|names| <= 2 || ((uniform || RunsBackwards(within)) && (ordered || !WindowExcusesStep(within, skew))))
  {
    hide Decide, Holds, InStreamOrder, UniformEmit, RunsBackwards, SkippedRest;
    var r := Order(names, within, skew);
    if |names| <= 2 || ((uniform || RunsBackwards(within)) && (ordered || !WindowExcusesStep(within, skew))) {
      forall p, t | Feed(ordered, uniform, names, p + t) && Decide(r, p) == Viol ensures !Holds(r, p + t) {
        ViolIsFinal(names, within, skew, p, t);
      }
    } else if !uniform && !RunsBackwards(within) {
      MixedPrefixIsViol(names, within, skew);
      MixedStreamHolds(names, within, skew);
      assert Feed(ordered, uniform, names, MixedPrefix(names) + MixedRest(names));
    } else {
      LateNameRepairsViol(names, within, skew);
      var w := WindowUs(skew);
      assert Feed(ordered, uniform, names, SkippingPrefix(names, w) + SkippedRest(names, w));
    }
  }

  // On ordered streams stamped any way: for at most two names, or a negative bound. An
  // intermediate name without `_emit_seq` repairs any other.
  lemma ViolInevitableIffShort(names: seq<string>, within: Option<real>, skew: Option<real>)
    requires Distinct(names)
    ensures |names| <= 2 || RunsBackwards(within) <==>
            forall p, t :: InStreamOrder(p + t) && Decide(Order(names, within, skew), p) == Viol
              ==> !Holds(Order(names, within, skew), p + t)
  {
    hide Decide, Holds, InStreamOrder;
    ViolInevitableIff(names, within, skew, true, false);
  }

  // On uniformly stamped feeds in any order: for at most two names, or no window that
  // excuses a step. The window is not transitive, so a late event between two far-apart
  // ones makes each pair look concurrent.
  lemma ViolInevitableIffNoExcuse(names: seq<string>, within: Option<real>, skew: Option<real>)
    requires Distinct(names)
    ensures |names| <= 2 || !WindowExcusesStep(within, skew) <==>
            forall p, t :: UniformEmit(names, p + t) && Decide(Order(names, within, skew), p) == Viol
              ==> !Holds(Order(names, within, skew), p + t)
  {
    hide Decide, Holds, UniformEmit, WindowExcusesStep;
    ViolInevitableIff(names, within, skew, false, true);
  }

  // The shortest such feed under a window of one millisecond.
  lemma UnsortedFeedRepairsViol()
    ensures var r := Order(["x", "m", "y"], None, Some(1.0));
      var p := [Event(Some("y"), Some(1000), None, None, map[]), Event(Some("x"), Some(3000), None, None, map[])];
      var t := [Event(Some("m"), Some(2000), None, None, map[])];
      UniformEmit(r.names, p + t) && Decide(r, p) == Viol && Holds(r, p + t)
  {
    hide Decide, Holds, UniformEmit;
    var names, skew := ["x", "m", "y"], Some(1.0);
    assert names[0] == "x" && names[1] == "m" && names[2] == "y";
    assert WindowUs(skew) == 1000;
    assert SkippingPrefix(names, 1000) ==
      [Event(Some("y"), Some(1000), None, None, map[]), Event(Some("x"), Some(3000), None, None, map[])];
    assert SkippedRest(names, 1000) == [Event(Some("m"), Some(2000), None, None, map[])];
    LateNameRepairsViol(names, None, skew);
  }
}
