/**
 The monitor automata: one class per rule, fed one event at a time. Each keeps the
 events fed so far in ghost fields; `Valid` ties the real fields to them.
 */
module Monitors {
  import opened Options
  import opened Events
  import opened Rules

  // The latch after feeding `fed`, the k-th event under stream index at[k]: the first
  // prefix on which the rule decides fixes it.
  function LatchAfter(r: Rule, fed: seq<Event>, at: seq<int>): Latch
    requires |fed| == |at|
  {
    if fed == [] then Latch(Pend, None).Settle(Decide(r, []), -1)
    else
      LatchAfter(r, fed[..|fed| - 1], at[..|at| - 1]).Settle(Decide(r, fed), at[|at| - 1])
  }

  // The collapsed check: what the gate and the poller read off it.
  datatype CheckResult = CheckResult(passed: bool, latch: Latch, tautological: bool)

  predicate Tautological(r: Rule) {
    r.Count? && match r.op
                case Ge => r.want <= 0.0
                case Gt => r.want < 0.0
                case Ne => r.want < 0.0
                case _ => false
  }

  // What driving a fresh monitor of rule r over the events and collapsing it yields.
  function Judged(r: Rule, fed: seq<Event>, at: seq<int>, reachable: bool): CheckResult
    requires |fed| == |at|
  {
    CheckResult(reachable && Holds(r, fed), LatchAfter(r, fed, at), Tautological(r))
  }

  lemma AppendSplits<T>(s: seq<T>, x: T)
    ensures |s + [x]| == |s| + 1
    ensures (s + [x])[..|s|] == s && (s + [x])[|s|] == x
  {
  }

  // One more event: the latch takes the new decision, unless it is already set.
  lemma LatchStep(r: Rule, fed: seq<Event>, at: seq<int>, ev: Event, idx: int)
    requires |fed| == |at|
    ensures LatchAfter(r, fed + [ev], at + [idx]) == LatchAfter(r, fed, at).Settle(Decide(r, fed + [ev]), idx)
  {
    AppendSplits(fed, ev);
    AppendSplits(at, idx);
  }

  // A decided prefix leaves the latch set, so deciding it again changes nothing.
  lemma LatchedOnceDecided(r: Rule, fed: seq<Event>, at: seq<int>)
    requires |fed| == |at| && Decide(r, fed) != Pend
    ensures LatchAfter(r, fed, at).verdict != Pend
  {
  }

  // An event that changes nothing the rule looks at leaves the latch alone.
  lemma LatchUnmoved(r: Rule, fed: seq<Event>, at: seq<int>, ev: Event, idx: int)
    requires |fed| == |at| && Decide(r, fed + [ev]) == Decide(r, fed)
    ensures LatchAfter(r, fed + [ev], at + [idx]) == LatchAfter(r, fed, at)
  {
    LatchStep(r, fed, at, ev, idx);
    if Decide(r, fed) != Pend { LatchedOnceDecided(r, fed, at); }
  }

  class CountMonitor {
    const matches: Matcher
    const op: Op
    const want: real
    var got: nat
    var latch: Latch
    ghost var fed: seq<Event>
    ghost var at: seq<int>

    ghost function Rule(): Rule { Count(matches, op, want) }

    ghost predicate Valid()
      reads this
    {
      && |fed| == |at|
      && got == Matched(matches, fed)
      && latch == LatchAfter(Rule(), fed, at)
    }

    constructor (matches: Matcher, op: Op, want: real)
      ensures Valid() && Rule() == Count(matches, op, want) && fed == [] && at == []
    {
      this.matches, this.op, this.want := matches, op, want;
      got, fed, at := 0, [], [];
      latch := if op == Ge && want <= 0.0 then Latch(Pend, None).Settle(Sat, -1) else Latch(Pend, None);
    }

    method Step(ev: Event, idx: int)
      requires Valid()
      modifies this
      ensures Valid() && fed == old(fed) + [ev] && at == old(at) + [idx]
    {
      AppendSplits(fed, ev);
      LatchStep(Rule(), fed, at, ev, idx);
      if matches(ev) {
        got := got + 1;
        if (op == Ge || op == Gt) && Compare(op, got as real, want) {
          latch := latch.Settle(Sat, idx);
        } else if op == Eq && got as real > want {
          latch := latch.Settle(Viol, idx);
        } else if op == Le && got as real > want {
          latch := latch.Settle(Viol, idx);
        } else if op == Lt && got as real >= want {
          latch := latch.Settle(Viol, idx);
        }
      } else {
        LatchUnmoved(Rule(), fed, at, ev, idx);
      }
      fed, at := fed + [ev], at + [idx];
    }

    method Collapse(reachable: bool) returns (result: CheckResult)
      requires Valid()
      ensures result == Judged(Rule(), fed, at, reachable)
    {
      result := CheckResult(reachable && Compare(op, got as real, want), latch,
        (op == Ge && want <= 0.0) || (op == Gt && want < 0.0) || (op == Ne && want < 0.0));
    }
  }

  class PresentMonitor {
    const matchers: seq<Matcher>
    var hit: seq<bool>
    var latch: Latch
    ghost var fed: seq<Event>
    ghost var at: seq<int>

    ghost function Rule(): Rule { Present(matchers) }

    ghost predicate Valid()
      reads this
    {
      && |fed| == |at|
      && |hit| == |matchers|
      && (forall i :: 0 <= i < |hit| ==> (hit[i] <==> Hit(matchers[i], fed)))
      && latch == LatchAfter(Rule(), fed, at)
    }

    constructor (matchers: seq<Matcher>)
      ensures Valid() && Rule() == Present(matchers) && fed == [] && at == []
    {
      this.matchers := matchers;
      hit := seq(|matchers|, _ => false);
      latch, fed, at := Latch(Pend, None), [], [];
    }

    method Step(ev: Event, idx: int)
      requires Valid()
      modifies this
      ensures Valid() && fed == old(fed) + [ev] && at == old(at) + [idx]
    {
      LatchStep(Rule(), fed, at, ev, idx);
      for i := 0 to |hit|
        invariant |hit| == |matchers|
        invariant forall j :: 0 <= j < i ==> (hit[j] <==> Hit(matchers[j], fed + [ev]))
        invariant forall j :: i <= j < |hit| ==> (hit[j] <==> Hit(matchers[j], fed))
        invariant fed == old(fed) && at == old(at) && latch == old(latch)
      {
        HitStep(matchers[i], fed, ev);
        if !hit[i] && matchers[i](ev) {
          hit := hit[i := true];
        }
      }
      fed, at := fed + [ev], at + [idx];
      if forall i :: 0 <= i < |hit| ==> hit[i] {
        latch := latch.Settle(Sat, idx);
      }
    }

    method Collapse(reachable: bool) returns (result: CheckResult)
      requires Valid()
      ensures result == Judged(Rule(), fed, at, reachable)
    {
      result := CheckResult(reachable && forall i :: 0 <= i < |hit| ==> hit[i], latch, false);
    }
  }

  lemma HitStep(m: Matcher, s: seq<Event>, ev: Event)
    ensures Hit(m, s + [ev]) <==> Hit(m, s) || m(ev)
  {
    var t := s + [ev];
    assert t[|s|] == ev;
    if Hit(m, s) {
      var k :| 0 <= k < |s| && m(s[k]);
      assert m(t[k]);
    }
  }

  class AbsentMonitor {
    const matchers: seq<Matcher>
    const allow: seq<Matcher>
    var offenders: seq<Event>
    var latch: Latch
    ghost var fed: seq<Event>
    ghost var at: seq<int>

    ghost function Rule(): Rule { Absent(matchers, allow) }

    ghost predicate Valid()
      reads this
    {
      && |fed| == |at|
      && offenders == Filtered(e => Offends(matchers, allow, e), fed)
      && latch == LatchAfter(Rule(), fed, at)
    }

    constructor (matchers: seq<Matcher>, allow: seq<Matcher>)
      ensures Valid() && Rule() == Absent(matchers, allow) && fed == [] && at == []
    {
      this.matchers, this.allow := matchers, allow;
      offenders, latch, fed, at := [], Latch(Pend, None), [], [];
    }

    method Step(ev: Event, idx: int)
      requires Valid()
      modifies this
      ensures Valid() && fed == old(fed) + [ev] && at == old(at) + [idx]
    {
      ghost var offends := e => Offends(matchers, allow, e);
      FilteredStep(offends, fed, ev);
      FilteredNonempty(offends, fed);
      FilteredNonempty(offends, fed + [ev]);
      LatchStep(Rule(), fed, at, ev, idx);
      if AnyMatches(allow, ev) {
        LatchUnmoved(Rule(), fed, at, ev, idx);
      } else if AnyMatches(matchers, ev) {
        offenders := offenders + [ev];
        latch := latch.Settle(Viol, idx);
      } else {
        LatchUnmoved(Rule(), fed, at, ev, idx);
      }
      fed, at := fed + [ev], at + [idx];
    }

    method Collapse(reachable: bool) returns (result: CheckResult)
      requires Valid()
      ensures result == Judged(Rule(), fed, at, reachable)
    {
      FilteredNonempty(e => Offends(matchers, allow, e), fed);
      result := CheckResult(reachable && offenders == [], latch, false);
    }
  }

  function Filtered(m: Matcher, s: seq<Event>): seq<Event> {
    if s == [] then []
    else Filtered(m, s[..|s| - 1]) + if m(s[|s| - 1]) then [s[|s| - 1]] else []
  }

  lemma FilteredStep(m: Matcher, s: seq<Event>, ev: Event)
    ensures Filtered(m, s + [ev]) == Filtered(m, s) + if m(ev) then [ev] else []
  {
    AppendSplits(s, ev);
  }

  lemma {:induction false} FilteredNonempty(m: Matcher, s: seq<Event>)
    ensures Filtered(m, s) != [] <==> Hit(m, s)
  {
    if s != [] {
      FilteredNonempty(m, s[..|s| - 1]);
      HitStep(m, s[..|s| - 1], s[|s| - 1]);
      assert s == s[..|s| - 1] + [s[|s| - 1]];
    }
  }

  class DurationMonitor {
    const matches: Matcher
    const field: string
    const op: Op
    const target: real
    var got: nat
    var offenders: seq<Event>
    var latch: Latch
    ghost var fed: seq<Event>
    ghost var at: seq<int>

    ghost function Rule(): Rule { Duration(matches, field, op, target) }

    ghost predicate Valid()
      reads this
    {
      && |fed| == |at|
      && got == Matched(matches, fed)
      && offenders == Filtered(e => OffendsDuration(matches, field, op, target, e), fed)
      && latch == LatchAfter(Rule(), fed, at)
    }

    constructor (matches: Matcher, field: string, op: Op, target: real)
      ensures Valid() && Rule() == Duration(matches, field, op, target) && fed == [] && at == []
    {
      this.matches, this.field, this.op, this.target := matches, field, op, target;
      got, offenders, latch, fed, at := 0, [], Latch(Pend, None), [], [];
    }

    method Step(ev: Event, idx: int)
      requires Valid()
      modifies this
      ensures Valid() && fed == old(fed) + [ev] && at == old(at) + [idx]
    {
      ghost var offends := e => OffendsDuration(matches, field, op, target, e);
      AppendSplits(fed, ev);
      FilteredStep(offends, fed, ev);
      FilteredNonempty(offends, fed);
      FilteredNonempty(offends, fed + [ev]);
      LatchStep(Rule(), fed, at, ev, idx);
      if !matches(ev) {
        LatchUnmoved(Rule(), fed, at, ev, idx);
      } else {
        got := got + 1;
        if !WithinThreshold(field, op, target, ev) {
          offenders := offenders + [ev];
          latch := latch.Settle(Viol, idx);
        } else {
          LatchUnmoved(Rule(), fed, at, ev, idx);
        }
      }
      fed, at := fed + [ev], at + [idx];
    }

    method Collapse(reachable: bool) returns (result: CheckResult)
      requires Valid()
      ensures result == Judged(Rule(), fed, at, reachable)
    {
      FilteredNonempty(e => OffendsDuration(matches, field, op, target, e), fed);
      MatchedPositive(matches, fed);
      result := CheckResult(reachable && offenders == [] && got > 0, latch, false);
    }
  }

  lemma {:induction false} MatchedPositive(m: Matcher, s: seq<Event>)
    ensures Matched(m, s) > 0 <==> Hit(m, s)
  {
    if s != [] {
      MatchedPositive(m, s[..|s| - 1]);
      HitStep(m, s[..|s| - 1], s[|s| - 1]);
      assert s == s[..|s| - 1] + [s[|s| - 1]];
    }
  }

  class HeartbeatMonitor {
    const name: string
    const everyS: real
    const edgeSilence: bool
    var beats: nat
    var firstTs: Option<int>
    var lastTs: Option<int>
    var maxGapUs: int
    var streamMinTs: Option<int>
    var streamMaxTs: Option<int>
    var latch: Latch
    ghost var fed: seq<Event>
    ghost var at: seq<int>

    ghost function Rule(): Rule { Heartbeat(name, everyS, edgeSilence) }

    ghost predicate Valid()
      reads this
    {
      && |fed| == |at|
      && TracksBeats(Beats(name, fed))
      && TracksSpan(Stamps(fed))
      && latch == LatchAfter(Rule(), fed, at)
    }

    ghost predicate TracksBeats(bs: seq<int>)
      reads this`beats, this`firstTs, this`lastTs, this`maxGapUs
    {
      && beats == |bs|
      && firstTs == (if bs == [] then None else Some(bs[0]))
      && lastTs == (if bs == [] then None else Some(bs[|bs| - 1]))
      && maxGapUs == MaxGap(bs)
    }

    ghost predicate TracksSpan(ts: seq<int>)
      reads this`streamMinTs, this`streamMaxTs
    {
      edgeSilence ==>
        && streamMinTs == (if ts == [] then None else Some(Lowest(ts)))
        && streamMaxTs == (if ts == [] then None else Some(Highest(ts)))
    }

    constructor (name: string, everyS: real, edgeSilence: bool)
      ensures Valid() && Rule() == Heartbeat(name, everyS, edgeSilence) && fed == [] && at == []
    {
      this.name, this.everyS, this.edgeSilence := name, everyS, edgeSilence;
      beats, firstTs, lastTs, maxGapUs := 0, None, None, 0;
      streamMinTs, streamMaxTs, latch, fed, at := None, None, Latch(Pend, None), [], [];
    }

    method Step(ev: Event, idx: int)
      requires Valid()
      modifies this
      ensures Valid() && fed == old(fed) + [ev] && at == old(at) + [idx]
    {
      hide Beats, Stamps, LatchAfter, LongGap, TracksBeats, TracksSpan;
      BeatsStep(name, fed, ev);
      LatchStep(Rule(), fed, at, ev, idx);
      ghost var bs, ts := Beats(name, fed), Stamps(fed);
      if ev.timestamp.Some? {
        WidenSpan(ev.timestamp.value, ts);
      }
      if ev.name != Some(name) || ev.timestamp.None? {
        LatchUnmoved(Rule(), fed, at, ev, idx);
      } else {
        var t := ev.timestamp.value;
        LongGapStep(everyS, bs, t);
        var tooLong := RecordBeat(t, bs);
        if tooLong {
          latch := latch.Settle(Viol, idx);
        } else {
          LatchUnmoved(Rule(), fed, at, ev, idx);
        }
      }
      fed, at := fed + [ev], at + [idx];
    }

    // The `edge_silence` lines of `step`.
    method WidenSpan(t: int, ghost ts: seq<int>)
      requires TracksSpan(ts)
      modifies this`streamMinTs, this`streamMaxTs
      ensures TracksSpan(ts + [t])
    {
      AppendSplits(ts, t);
      if edgeSilence {
        streamMinTs := Some(if streamMinTs.None? then t else Min(streamMinTs.value, t));
        streamMaxTs := Some(if streamMaxTs.None? then t else Max(streamMaxTs.value, t));
      }
    }

    // The rest of `step`, for a beat: is the gap before it too long?
    method RecordBeat(t: int, ghost bs: seq<int>) returns (tooLong: bool)
      requires TracksBeats(bs)
      modifies this`beats, this`firstTs, this`lastTs, this`maxGapUs
      ensures TracksBeats(bs + [t])
      ensures tooLong <==> bs != [] && (t - bs[|bs| - 1]) as real > Micros(everyS)
    {
      AppendSplits(bs, t);
      beats := beats + 1;
      if firstTs.None? {
        firstTs := Some(t);
      }
      tooLong := false;
      if lastTs.Some? {
        var gap := t - lastTs.value;
        maxGapUs := Max(maxGapUs, gap);
        tooLong := gap as real > Micros(everyS);
      }
      lastTs := Some(t);
    }

    method Collapse(reachable: bool) returns (result: CheckResult)
      requires Valid()
      ensures result == Judged(Rule(), fed, at, reachable)
    {
      BeatsAreStamps(name, fed);
      if beats == 0 {
        return CheckResult(false, latch, false);
      }
      var lead, trail := 0, 0;
      if edgeSilence {
        lead := firstTs.value - streamMinTs.value;
        trail := streamMaxTs.value - lastTs.value;
      }
      var effective := Max(maxGapUs, Max(lead, trail));
      result := CheckResult(reachable && effective as real <= Micros(everyS), latch, false);
    }
  }

  lemma BeatsStep(name: string, s: seq<Event>, ev: Event)
    ensures Beats(name, s + [ev]) == if Occurs(name, ev) then Beats(name, s) + [ev.timestamp.value] else Beats(name, s)
    ensures Stamps(s + [ev]) == if ev.timestamp.Some? then Stamps(s) + [ev.timestamp.value] else Stamps(s)
  {
    AppendSplits(s, ev);
  }

  lemma LongGapStep(everyS: real, bs: seq<int>, t: int)
    ensures LongGap(everyS, bs + [t]) <==>
              LongGap(everyS, bs) || (bs != [] && (t - bs[|bs| - 1]) as real > Micros(everyS))
  {
    var cs := bs + [t];
    if LongGap(everyS, bs) {
      var i :| 1 <= i < |bs| && (bs[i] - bs[i - 1]) as real > Micros(everyS);
      assert (cs[i] - cs[i - 1]) as real > Micros(everyS);
    }
    if bs != [] && (t - bs[|bs| - 1]) as real > Micros(everyS) {
      assert (cs[|bs|] - cs[|bs| - 1]) as real > Micros(everyS);
    }
  }

  // Two streams with the same first occurrences are judged alike by an order rule.
  lemma OrderSeesOnlyFirsts(names: seq<string>, within: Option<real>, skew: Option<real>,
                            s: seq<Event>, t: seq<Event>)
    requires forall i :: 0 <= i < |names| ==> FirstOf(names[i], s) == FirstOf(names[i], t)
    ensures OrderedSoFar(names, skew, s) == OrderedSoFar(names, skew, t)
    ensures GapsOk(names, within, s) == GapsOk(names, within, t)
    ensures AllSeen(names, s) == AllSeen(names, t)
  {
    forall i, j ensures SeenNeighbours(names, s, i, j) <==> SeenNeighbours(names, t, i, j) {
    }
  }

  lemma FirstOfStep(name: string, s: seq<Event>, ev: Event)
    ensures FirstOf(name, s + [ev]) ==
              if FirstOf(name, s).Some? then FirstOf(name, s) else if Occurs(name, ev) then Some(ev) else None
  {
    AppendSplits(s, ev);
  }

  // `last` is the position of the last occurred name before j, or -1.
  ghost predicate LastSeen(names: seq<string>, s: seq<Event>, last: int, j: int) {
    && -1 <= last < j <= |names|
    && (last >= 0 ==> FirstOf(names[last], s).Some?)
    && forall k :: last < k < j ==> FirstOf(names[k], s).None?
  }

  ghost predicate OrderedUpTo(names: seq<string>, skew: Option<real>, s: seq<Event>, j: int) {
    forall i, k :: SeenNeighbours(names, s, i, k) && k < j
      ==> PairOk(skew, FirstOf(names[i], s).value, FirstOf(names[k], s).value)
  }

  lemma NoneSeenYet(names: seq<string>, skew: Option<real>, s: seq<Event>)
    ensures LastSeen(names, s, -1, 0) && OrderedUpTo(names, skew, s, 0)
  {
  }

  lemma OrderedMeansUpTo(names: seq<string>, skew: Option<real>, s: seq<Event>, j: int)
    ensures OrderedSoFar(names, skew, s) ==> OrderedUpTo(names, skew, s, j)
    ensures j >= |names| && OrderedUpTo(names, skew, s, j) ==> OrderedSoFar(names, skew, s)
  {
    hide FirstOf, PairOk;
  }

  // Extending an ordered prefix by name j: only the pair (last, j) is new.
  lemma SkipUnseen(names: seq<string>, skew: Option<real>, s: seq<Event>, last: int, j: int)
    requires LastSeen(names, s, last, j) && OrderedUpTo(names, skew, s, j) && j < |names|
    ensures FirstOf(names[j], s).None? ==> OrderedUpTo(names, skew, s, j + 1)
    ensures FirstOf(names[j], s).Some? && last < 0 ==> OrderedUpTo(names, skew, s, j + 1)
    ensures FirstOf(names[j], s).Some? && last >= 0 ==>
      (OrderedUpTo(names, skew, s, j + 1)
       <==> PairOk(skew, FirstOf(names[last], s).value, FirstOf(names[j], s).value))
  {
    assert FirstOf(names[j], s).Some? && last >= 0 ==> SeenNeighbours(names, s, last, j);
    forall i | SeenNeighbours(names, s, i, j) ensures i == last {
    }
  }

  class OrderMonitor {
    const names: seq<string>
    const withinS: Option<real>
    const tieSkewMs: Option<real>
    // `firsts`, `_keys` and `_emits`, by name: timestamp, (timestamp, seq), emit sequence
    var firsts: map<string, Option<int>>
    var keys: map<string, Option<(int, int)>>
    var emits: map<string, Option<int>>
    var latch: Latch
    ghost var fed: seq<Event>
    ghost var at: seq<int>

    ghost function Rule(): Rule { Order(names, withinS, tieSkewMs) }

    ghost predicate Valid()
      reads this
    {
      && |fed| == |at|
      && TracksFirsts(fed)
      && latch == LatchAfter(Rule(), fed, at)
    }

    // The three maps hold what is needed of each name's first occurrence.
    ghost predicate TracksFirsts(s: seq<Event>)
      reads this`firsts, this`keys, this`emits
    {
      && firsts.Keys == keys.Keys == emits.Keys == (set n | n in names)
      && forall n :: n in names ==> TracksFirst(n, FirstOf(n, s))
    }

    ghost predicate TracksFirst(n: string, first: Option<Event>)
      requires n in firsts && n in keys && n in emits
      reads this`firsts, this`keys, this`emits
    {
      match first
      case None => firsts[n] == None && keys[n] == None && emits[n] == None
      case Some(e) =>
        && firsts[n] == e.timestamp && e.timestamp.Some?
        && keys[n] == Some((e.timestamp.value, OrZero(e.sequence)))
        && emits[n] == e.emit
    }

    constructor (names: seq<string>, withinS: Option<real>, tieSkewMs: Option<real>)
      ensures Valid() && Rule() == Order(names, withinS, tieSkewMs) && fed == [] && at == []
    {
      this.names, this.withinS, this.tieSkewMs := names, withinS, tieSkewMs;
      assert names != [] ==> FirstOf(names[0], []).None?;
      firsts := map n | n in names :: None;
      keys := map n | n in names :: None;
      emits := map n | n in names :: None;
      latch, fed, at := Latch(Pend, None), [], [];
    }

    // `_pair_ok`.
    method PairIsOk(a: string, b: string, ghost s: seq<Event>) returns (ok: bool)
      requires TracksFirsts(s) && a in names && b in names
      requires FirstOf(a, s).Some? && FirstOf(b, s).Some?
      ensures ok == PairOk(tieSkewMs, FirstOf(a, s).value, FirstOf(b, s).value)
    {
      var ka, kb := keys[a].value, keys[b].value;
      var ea, eb := emits[a], emits[b];
      if ea.Some? && eb.Some? {
        return ea.value <= eb.value;
      }
      if tieSkewMs.Some? {
        var apart := if ka.0 <= kb.0 then kb.0 - ka.0 else ka.0 - kb.0;
        if apart as real <= tieSkewMs.value * 1000.0 {
          return true;
        }
      }
      ok := if ka.0 != kb.0 then ka.0 < kb.0 else ka.1 <= kb.1;
    }

    // `_ordered_so_far`: compare each occurred name with the occurred name before it.
    method IsOrderedSoFar(ghost s: seq<Event>) returns (ok: bool)
      requires TracksFirsts(s)
      ensures ok == OrderedSoFar(names, tieSkewMs, s)
    {
      var last := -1;
      hide FirstOf, PairOk, OrderedSoFar, OrderedUpTo;
      OrderedMeansUpTo(names, tieSkewMs, s, |names|);
      NoneSeenYet(names, tieSkewMs, s);
      for j := 0 to |names|
        invariant LastSeen(names, s, last, j)
        invariant OrderedUpTo(names, tieSkewMs, s, j)
      {
        SkipUnseen(names, tieSkewMs, s, last, j);
        OrderedMeansUpTo(names, tieSkewMs, s, j + 1);
        if keys[names[j]].Some? {
          if last >= 0 {
            ok := PairIsOk(names[last], names[j], s);
            if !ok { return; }
          }
          last := j;
        }
      }
      ok := true;
    }

    // `_gaps_exceeded` is empty.
    method NoGapExceeded(ghost s: seq<Event>) returns (ok: bool)
      requires TracksFirsts(s)
      ensures ok == GapsOk(names, withinS, s)
    {
      if withinS.None? {
        return true;
      }
      hide FirstOf;
      var bound := Micros(withinS.value);
      var i := 0;
      while i + 1 < |names|
        invariant forall k :: 0 <= k < i && k + 1 < |names|
                    && FirstOf(names[k], s).Some? && FirstOf(names[k + 1], s).Some?
                    ==> GapOk(withinS, FirstOf(names[k], s).value, FirstOf(names[k + 1], s).value)
      {
        var a, b := firsts[names[i]], firsts[names[i + 1]];
        if a.Some? && b.Some? && (b.value - a.value) as real > bound {
          return false;
        }
        i := i + 1;
      }
      ok := true;
    }

    // Every name has occurred: `missing` is empty.
    method NoneMissing(ghost s: seq<Event>) returns (ok: bool)
      requires TracksFirsts(s)
      ensures ok == AllSeen(names, s)
    {
      hide FirstOf;
      for i := 0 to |names|
        invariant forall k :: 0 <= k < i ==> FirstOf(names[k], s).Some?
      {
        if firsts[names[i]].None? {
          return false;
        }
      }
      ok := true;
    }

    // `ordered` of `collapse`: nothing missing and every listed pair in order.
    method IsOrdered(ghost s: seq<Event>) returns (ok: bool)
      requires TracksFirsts(s)
      ensures ok == Ordered(names, tieSkewMs, s)
    {
      hide FirstOf, PairOk;
      ok := NoneMissing(s);
      if !ok { return; }
      var i := 0;
      while i + 1 < |names|
        invariant 0 <= i
        invariant forall k :: 0 <= k < i && k + 1 < |names| ==>
                    PairOk(tieSkewMs, FirstOf(names[k], s).value, FirstOf(names[k + 1], s).value)
      {
        ok := PairIsOk(names[i], names[i + 1], s);
        if !ok { return; }
        i := i + 1;
      }
    }

    // Note the first occurrence of a listed name.
    method Record(name: string, ev: Event)
      requires TracksFirsts(fed) && ev.name == Some(name) && ev.timestamp.Some? && name in firsts
      modifies this`firsts, this`keys, this`emits
      ensures TracksFirsts(fed + [ev])
    {
      hide FirstOf;
      forall n | n in names
        ensures FirstOf(n, fed + [ev]) == if FirstOf(n, fed).None? && n == name then Some(ev) else FirstOf(n, fed)
      {
        FirstOfStep(n, fed, ev);
      }
      if firsts[name].None? {
        firsts := firsts[name := ev.timestamp];
        keys := keys[name := Some((ev.timestamp.value, OrZero(ev.sequence)))];
        emits := emits[name := ev.emit];
      }
    }

    lemma ListedIsNamed(name: string)
      requires TracksFirsts(fed) && name in firsts
      ensures names != []
    {
      assert name in names;
    }

    // Events without a timestamp or outside the sequence do not move the automaton.
    lemma OthersLeaveFirsts(ev: Event)
      requires Valid() && (ev.name.None? || ev.name.value !in firsts || ev.timestamp.None?)
      ensures TracksFirsts(fed + [ev]) && Decide(Rule(), fed + [ev]) == Decide(Rule(), fed)
    {
      hide FirstOf, LatchAfter, OrderedSoFar, GapsOk, AllSeen;
      forall n | n in names ensures FirstOf(n, fed + [ev]) == FirstOf(n, fed) {
        FirstOfStep(n, fed, ev);
      }
      OrderSeesOnlyFirsts(names, withinS, tieSkewMs, fed, fed + [ev]);
    }

    method Step(ev: Event, idx: int)
      requires Valid()
      modifies this
      ensures Valid() && fed == old(fed) + [ev] && at == old(at) + [idx]
    {
      hide FirstOf, LatchAfter, OrderedSoFar, GapsOk, TracksFirsts, AllSeen;
      LatchStep(Rule(), fed, at, ev, idx);
      if ev.name.None? || ev.name.value !in firsts || ev.timestamp.None? {
        OthersLeaveFirsts(ev);
        LatchUnmoved(Rule(), fed, at, ev, idx);
        fed, at := fed + [ev], at + [idx];
        return;
      }
      ListedIsNamed(ev.name.value);
      Record(ev.name.value, ev);
      fed, at := fed + [ev], at + [idx];
      var ordered := IsOrderedSoFar(fed);
      var bounded := NoGapExceeded(fed);
      if !ordered || !bounded {
        latch := latch.Settle(Viol, idx);
        return;
      }
      var complete := NoneMissing(fed);
      if complete {
        latch := latch.Settle(Sat, idx);
      }
    }

    method Collapse(reachable: bool) returns (result: CheckResult)
      requires Valid()
      ensures result == Judged(Rule(), fed, at, reachable)
    {
      hide FirstOf, LatchAfter, GapsOk, TracksFirsts, Ordered;
      var ordered := IsOrdered(fed);
      var bounded := true;
      if ordered {
        bounded := NoGapExceeded(fed);
      }
      result := CheckResult(reachable && ordered && bounded, latch, false);
    }
  }
}
