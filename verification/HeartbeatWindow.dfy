/** The heartbeat check against its MTL reading: every window long enough contains a beat. */
module HeartbeatWindow {
  import opened Options
  import opened Events
  import opened Rules
  import opened Monitors
  import opened Ltl3

  ghost predicate Nondecreasing(xs: seq<int>) {
    forall i, j :: 0 <= i < j < |xs| ==> xs[i] <= xs[j]
  }

  // Some beat falls in (t, t + every].
  ghost predicate BeatWithin(beats: seq<int>, t: int, everyUs: real) {
    exists b :: b in beats && t < b && b as real <= t as real + everyUs
  }

  // Every window (t, t + every] that starts at or after `first` and ends before `last`.
  ghost predicate AlwaysEventually(beats: seq<int>, first: int, last: int, everyUs: real) {
    forall t :: first <= t && t as real + everyUs < last as real ==> BeatWithin(beats, t, everyUs)
  }

  // The span the property speaks about: the beats', or on request the whole stream's.
  ghost function SpanStart(edge: bool, beats: seq<int>, stamps: seq<int>): int
    requires beats != [] && stamps != []
  {
    if edge then Lowest(stamps) else beats[0]
  }

  ghost function SpanEnd(edge: bool, beats: seq<int>, stamps: seq<int>): int
    requires beats != [] && stamps != []
  {
    if edge then Highest(stamps) else beats[|beats| - 1]
  }

  lemma {:induction false} StampIsInStream(s: seq<Event>, x: int)
    requires x in Stamps(s)
    ensures exists k :: 0 <= k < |s| && s[k].timestamp == Some(x)
  {
    var last := |s| - 1;
    if s[last].timestamp != Some(x) {
      StampIsInStream(s[..last], x);
      var k :| 0 <= k < last && s[..last][k].timestamp == Some(x);
      assert s[k].timestamp == Some(x);
    }
  }

  lemma {:induction false} BeatsOfOrderedStream(name: string, s: seq<Event>)
    requires InStreamOrder(s)
    ensures Nondecreasing(Beats(name, s))
  {
    if s != [] {
      var last := |s| - 1;
      BeatsOfOrderedStream(name, s[..last]);
      BeatsAreStamps(name, s[..last]);
      forall b | b in Beats(name, s[..last]) && s[last].timestamp.Some?
        ensures b <= s[last].timestamp.value
      {
        StampIsInStream(s[..last], b);
        var k :| 0 <= k < |s[..last]| && s[..last][k].timestamp == Some(b);
        assert s[k].timestamp == Some(b) && KeyLeq(s[k], s[last]);
      }
      var before := Beats(name, s[..last]);
      assert forall i :: 0 <= i < |before| ==> before[i] in before;
    }
  }

  // The gaps are short.
  ghost predicate ShortGaps(bs: seq<int>, everyUs: real) {
    forall i :: 1 <= i < |bs| ==> (bs[i] - bs[i - 1]) as real <= everyUs
  }

  // The last beat at or before t.
  lemma BeatBefore(bs: seq<int>, t: int) returns (i: int)
    requires Nondecreasing(bs) && bs != [] && bs[0] <= t
    ensures 0 <= i < |bs| && bs[i] <= t && (i + 1 < |bs| ==> t < bs[i + 1])
  {
    i := 0;
    while i + 1 < |bs| && bs[i + 1] <= t
      invariant 0 <= i < |bs| && bs[i] <= t
    {
      i := i + 1;
    }
  }

  lemma ShortGapsFillWindows(bs: seq<int>, first: int, last: int, everyUs: real)
    requires Nondecreasing(bs) && bs != [] && ShortGaps(bs, everyUs) && everyUs >= 0.0
    requires (bs[0] - first) as real <= everyUs && (last - bs[|bs| - 1]) as real <= everyUs
    ensures AlwaysEventually(bs, first, last, everyUs)
  {
    forall t | first <= t && t as real + everyUs < last as real
      ensures BeatWithin(bs, t, everyUs)
    {
      if t < bs[0] {
        assert bs[0] in bs;
      } else {
        var i := BeatBefore(bs, t);
        assert i + 1 < |bs|;
        assert bs[i + 1] in bs;
      }
    }
  }

  // The window after a beat is empty when the next one is too far away.
  lemma LongGapIsEmptyWindow(bs: seq<int>, everyUs: real, i: int)
    requires Nondecreasing(bs) && 1 <= i < |bs| && (bs[i] - bs[i - 1]) as real > everyUs
    ensures !BeatWithin(bs, bs[i - 1], everyUs)
  {
    forall b | b in bs && bs[i - 1] < b ensures b as real > bs[i - 1] as real + everyUs {
      var k :| 0 <= k < |bs| && bs[k] == b;
      assert k >= i;
    }
  }

  lemma EmptyWindowAfterLast(bs: seq<int>, everyUs: real)
    requires Nondecreasing(bs) && bs != []
    ensures !BeatWithin(bs, bs[|bs| - 1], everyUs)
  {
  }

  lemma EmptyWindowBeforeFirst(bs: seq<int>, first: int, everyUs: real)
    requires Nondecreasing(bs) && bs != [] && (bs[0] - first) as real > everyUs
    ensures !BeatWithin(bs, first, everyUs)
  {
  }

  lemma NegativeWindowIsEmpty(bs: seq<int>, t: int, everyUs: real)
    requires everyUs < 0.0
    ensures !BeatWithin(bs, t, everyUs)
  {
  }

  lemma FilledWindowsBoundGaps(bs: seq<int>, first: int, last: int, everyUs: real)
    requires Nondecreasing(bs) && bs != [] && first <= bs[0] && bs[|bs| - 1] <= last
    requires AlwaysEventually(bs, first, last, everyUs)
    ensures everyUs >= 0.0 && ShortGaps(bs, everyUs)
    ensures (bs[0] - first) as real <= everyUs && (last - bs[|bs| - 1]) as real <= everyUs
  {
    if everyUs < 0.0 {
      NegativeWindowIsEmpty(bs, first, everyUs);
    }
    if (bs[0] - first) as real > everyUs {
      EmptyWindowBeforeFirst(bs, first, everyUs);
    }
    if (last - bs[|bs| - 1]) as real > everyUs {
      EmptyWindowAfterLast(bs, everyUs);
    }
    forall i | 1 <= i < |bs| ensures (bs[i] - bs[i - 1]) as real <= everyUs {
      if (bs[i] - bs[i - 1]) as real > everyUs {
        LongGapIsEmptyWindow(bs, everyUs, i);
      }
    }
  }

  // `max_gap_us` stays within the period exactly when every gap does.
  lemma {:induction false} MaxGapMeansShortGaps(bs: seq<int>, everyS: real)
    ensures MaxGap(bs) as real <= Micros(everyS) <==> Micros(everyS) >= 0.0 && ShortGaps(bs, Micros(everyS))
  {
    MaxGapNonnegative(bs);
    if MaxGap(bs) as real <= Micros(everyS) {
      forall i | 1 <= i < |bs| ensures (bs[i] - bs[i - 1]) as real <= Micros(everyS) {
        MaxGapCovers(bs, i);
      }
    }
    if Micros(everyS) >= 0.0 && ShortGaps(bs, Micros(everyS)) {
      ShortGapsBoundMaxGap(everyS, bs);
    }
  }

  lemma SpanCoversBeats(edge: bool, name: string, s: seq<Event>)
    requires InStreamOrder(s) && Beats(name, s) != []
    ensures Stamps(s) != []
    ensures SpanStart(edge, Beats(name, s), Stamps(s)) <= Beats(name, s)[0]
    ensures Beats(name, s)[|Beats(name, s)| - 1] <= SpanEnd(edge, Beats(name, s), Stamps(s))
  {
    var bs, ts := Beats(name, s), Stamps(s);
    BeatsAreStamps(name, s);
    assert bs[0] in ts;
    var i :| 0 <= i < |ts| && ts[i] == bs[0];
    LowestBelow(ts, i);
    assert bs[|bs| - 1] in ts;
    var j :| 0 <= j < |ts| && ts[j] == bs[|bs| - 1];
    LowestBelow(ts, j);
  }

  // The outcome's arithmetic over beats and stamps is the window property over them.
  lemma BoundedGapsMeanWindows(bs: seq<int>, ts: seq<int>, everyS: real, edge: bool)
    requires Nondecreasing(bs) && bs != [] && ts != []
    requires SpanStart(edge, bs, ts) <= bs[0] && bs[|bs| - 1] <= SpanEnd(edge, bs, ts)
    ensures Max(MaxGap(bs), EdgeGap(edge, bs, ts)) as real <= Micros(everyS) <==>
            AlwaysEventually(bs, SpanStart(edge, bs, ts), SpanEnd(edge, bs, ts), Micros(everyS))
  {
    hide MaxGap, AlwaysEventually, Nondecreasing, ShortGaps, Micros, Lowest, Highest;
    var first, last, us := SpanStart(edge, bs, ts), SpanEnd(edge, bs, ts), Micros(everyS);
    MaxGapNonnegative(bs);
    MaxGapMeansShortGaps(bs, everyS);
    if Max(MaxGap(bs), EdgeGap(edge, bs, ts)) as real <= us {
      ShortGapsFillWindows(bs, first, last, us);
    }
    if AlwaysEventually(bs, first, last, us) {
      FilledWindowsBoundGaps(bs, first, last, us);
    }
  }

  // The check passes exactly when there is a beat and the span property holds.
  lemma HeartbeatMeansWindows(name: string, everyS: real, edge: bool, s: seq<Event>)
    requires InStreamOrder(s)
    ensures Beats(name, s) != [] ==> Stamps(s) != []
    ensures Holds(Heartbeat(name, everyS, edge), s) <==>
              var beats, stamps := Beats(name, s), Stamps(s);
              beats != [] && AlwaysEventually(beats, SpanStart(edge, beats, stamps),
                                              SpanEnd(edge, beats, stamps), Micros(everyS))
  {
    hide Beats, Stamps, MaxGap, EdgeGap, AlwaysEventually, SpanStart, SpanEnd, Micros, InStreamOrder;
    BeatsAreStamps(name, s);
    if Beats(name, s) != [] {
      BeatsOfOrderedStream(name, s);
      SpanCoversBeats(edge, name, s);
      BoundedGapsMeanWindows(Beats(name, s), Stamps(s), everyS, edge);
    }
  }

  // Said of the events themselves ------------------------------------------------------------

  ghost predicate IsBeat(name: string, e: Event) {
    e.name == Some(name) && e.timestamp.Some?
  }

  // The events whose timestamps delimit the span.
  ghost predicate InSpan(name: string, edge: bool, e: Event) {
    e.timestamp.Some? && (edge || e.name == Some(name))
  }

  // An event beats in (t, t + everyUs].
  ghost predicate BeatsIn(name: string, s: seq<Event>, t: int, everyUs: real) {
    exists k :: 0 <= k < |s| && IsBeat(name, s[k])
                && t < s[k].timestamp.value && s[k].timestamp.value as real <= t as real + everyUs
  }

  // Every such window that lies between two events of the span.
  ghost predicate EveryWindowBeats(name: string, edge: bool, s: seq<Event>, everyUs: real) {
    forall i, j, t :: 0 <= i < |s| && 0 <= j < |s| && InSpan(name, edge, s[i]) && InSpan(name, edge, s[j])
                      && s[i].timestamp.value <= t && t as real + everyUs < s[j].timestamp.value as real
      ==> BeatsIn(name, s, t, everyUs)
  }

  lemma {:induction false} BeatsAreBeats(name: string, s: seq<Event>)
    ensures forall k :: 0 <= k < |s| && IsBeat(name, s[k]) ==> s[k].timestamp.value in Beats(name, s)
    ensures forall b :: b in Beats(name, s) ==>
      exists k :: 0 <= k < |s| && IsBeat(name, s[k]) && s[k].timestamp == Some(b)
  {
    if s != [] {
      var last := |s| - 1;
      BeatsAreBeats(name, s[..last]);
      forall b | b in Beats(name, s)
        ensures exists k :: 0 <= k < |s| && IsBeat(name, s[k]) && s[k].timestamp == Some(b)
      {
        if b in Beats(name, s[..last]) {
          var k :| 0 <= k < last && IsBeat(name, s[..last][k]) && s[..last][k].timestamp == Some(b);
          assert IsBeat(name, s[k]);
        } else {
          assert IsBeat(name, s[last]);
        }
      }
      forall k | 0 <= k < |s| && IsBeat(name, s[k]) ensures s[k].timestamp.value in Beats(name, s) {
        if k < last { assert s[k] == s[..last][k]; }
      }
    }
  }

  lemma {:induction false} StampsAreStamps(s: seq<Event>)
    ensures forall k :: 0 <= k < |s| && s[k].timestamp.Some? ==> s[k].timestamp.value in Stamps(s)
  {
    if s != [] {
      var last := |s| - 1;
      StampsAreStamps(s[..last]);
      forall k | 0 <= k < |s| && s[k].timestamp.Some? ensures s[k].timestamp.value in Stamps(s) {
        if k < last { assert s[k] == s[..last][k]; }
      }
    }
  }

  lemma {:induction false} LowestIsListed(xs: seq<int>)
    requires xs != []
    ensures Lowest(xs) in xs && Highest(xs) in xs
  {
    if |xs| > 1 { LowestIsListed(xs[..|xs| - 1]); }
  }

  lemma StampEnds(s: seq<Event>) returns (i: int, j: int)
    requires Stamps(s) != []
    ensures 0 <= i < |s| && s[i].timestamp == Some(Lowest(Stamps(s)))
    ensures 0 <= j < |s| && s[j].timestamp == Some(Highest(Stamps(s)))
    ensures forall k :: 0 <= k < |s| && s[k].timestamp.Some? ==>
      Lowest(Stamps(s)) <= s[k].timestamp.value <= Highest(Stamps(s))
  {
    StampsAreStamps(s);
    hide Stamps, Lowest, Highest;
    var ts := Stamps(s);
    LowestIsListed(ts);
    StampIsInStream(s, Lowest(ts));
    StampIsInStream(s, Highest(ts));
    i :| 0 <= i < |s| && s[i].timestamp == Some(Lowest(ts));
    j :| 0 <= j < |s| && s[j].timestamp == Some(Highest(ts));
    forall x | x in ts ensures Lowest(ts) <= x <= Highest(ts) {
      var k :| 0 <= k < |ts| && ts[k] == x;
      LowestBelow(ts, k);
    }
  }

  lemma BeatEnds(name: string, s: seq<Event>) returns (i: int, j: int)
    requires Nondecreasing(Beats(name, s)) && Beats(name, s) != []
    ensures var bs := Beats(name, s);
      && 0 <= i < |s| && IsBeat(name, s[i]) && s[i].timestamp == Some(bs[0])
      && 0 <= j < |s| && IsBeat(name, s[j]) && s[j].timestamp == Some(bs[|bs| - 1])
      && forall k :: 0 <= k < |s| && IsBeat(name, s[k]) ==> bs[0] <= s[k].timestamp.value <= bs[|bs| - 1]
  {
    BeatsAreBeats(name, s);
    hide Beats;
    var bs := Beats(name, s);
    assert bs[0] in bs && bs[|bs| - 1] in bs;
    i :| 0 <= i < |s| && IsBeat(name, s[i]) && s[i].timestamp == Some(bs[0]);
    j :| 0 <= j < |s| && IsBeat(name, s[j]) && s[j].timestamp == Some(bs[|bs| - 1]);
    forall x | x in bs ensures bs[0] <= x <= bs[|bs| - 1] {
      var k :| 0 <= k < |bs| && bs[k] == x;
    }
  }

  // On an ordered stream the span runs from its lowest to its highest event, and both ends
  // are attained.
  lemma SpanEnds(name: string, edge: bool, s: seq<Event>) returns (i: int, j: int)
    requires InStreamOrder(s) && Beats(name, s) != [] && Stamps(s) != []
    ensures 0 <= i < |s| && 0 <= j < |s| && InSpan(name, edge, s[i]) && InSpan(name, edge, s[j])
    ensures s[i].timestamp == Some(SpanStart(edge, Beats(name, s), Stamps(s)))
    ensures s[j].timestamp == Some(SpanEnd(edge, Beats(name, s), Stamps(s)))
    ensures forall k :: 0 <= k < |s| && InSpan(name, edge, s[k]) ==>
      s[i].timestamp.value <= s[k].timestamp.value <= s[j].timestamp.value
  {
    BeatsOfOrderedStream(name, s);
    hide Beats, Stamps, Lowest, Highest, InStreamOrder, Nondecreasing;
    if edge {
      i, j := StampEnds(s);
    } else {
      i, j := BeatEnds(name, s);
    }
  }

  lemma BeatWithinMeansBeatsIn(name: string, s: seq<Event>, t: int, everyUs: real)
    ensures BeatWithin(Beats(name, s), t, everyUs) <==> BeatsIn(name, s, t, everyUs)
  {
    BeatsAreBeats(name, s);
    hide Beats;
    if BeatWithin(Beats(name, s), t, everyUs) {
      var b :| b in Beats(name, s) && t < b && b as real <= t as real + everyUs;
      var k :| 0 <= k < |s| && IsBeat(name, s[k]) && s[k].timestamp == Some(b);
    }
  }

  lemma WindowsBetweenSpanEvents(name: string, edge: bool, s: seq<Event>, everyUs: real)
    requires InStreamOrder(s) && Beats(name, s) != [] && Stamps(s) != []
    ensures var bs, ts := Beats(name, s), Stamps(s);
      AlwaysEventually(bs, SpanStart(edge, bs, ts), SpanEnd(edge, bs, ts), everyUs)
      <==> EveryWindowBeats(name, edge, s, everyUs)
  {
    var i, j := SpanEnds(name, edge, s);
    hide Beats, Stamps, SpanStart, SpanEnd, InStreamOrder, BeatWithin, BeatsIn;
    forall t ensures BeatWithin(Beats(name, s), t, everyUs) <==> BeatsIn(name, s, t, everyUs) {
      BeatWithinMeansBeatsIn(name, s, t, everyUs);
    }
  }

  // The check passes exactly when something beats and, between any two events of the span,
  // no window of the period goes by without a beat.
  lemma HeartbeatMeaning(name: string, everyS: real, edge: bool, s: seq<Event>)
    requires InStreamOrder(s)
    ensures Holds(Heartbeat(name, everyS, edge), s) <==>
      (exists k :: 0 <= k < |s| && IsBeat(name, s[k])) && EveryWindowBeats(name, edge, s, everyS * 1000000.0)
  {
    HeartbeatMeansWindows(name, everyS, edge, s);
    BeatsAreBeats(name, s);
    hide Beats, Stamps, AlwaysEventually, SpanStart, SpanEnd, InStreamOrder, EveryWindowBeats, Holds;
    if Beats(name, s) != [] {
      assert Beats(name, s)[0] in Beats(name, s);
      WindowsBetweenSpanEvents(name, edge, s, everyS * 1000000.0);
    }
  }

  // Beats i and j, with none between them, more than the period apart.
  ghost predicate LongPause(name: string, everyS: real, s: seq<Event>, i: int, j: int) {
    && 0 <= i < j < |s| && IsBeat(name, s[i]) && IsBeat(name, s[j])
    && (forall k :: i < k < j ==> !IsBeat(name, s[k]))
    && (s[j].timestamp.value - s[i].timestamp.value) as real > everyS * 1000000.0
  }

  lemma {:induction false} LastBeatAt(name: string, s: seq<Event>) returns (k: int)
    requires Beats(name, s) != []
    ensures 0 <= k < |s| && IsBeat(name, s[k]) && s[k].timestamp == Some(Beats(name, s)[|Beats(name, s)| - 1])
    ensures forall j :: k < j < |s| ==> !IsBeat(name, s[j])
  {
    var last := |s| - 1;
    if IsBeat(name, s[last]) {
      k := last;
    } else {
      k := LastBeatAt(name, s[..last]);
      assert forall j :: 0 <= j < last ==> s[..last][j] == s[j];
    }
  }

  // Before the stream ends only a pause between two beats decides, and it decides `viol`.
  lemma {:induction false} HeartbeatDecision(name: string, everyS: real, edge: bool, s: seq<Event>)
    ensures Decide(Heartbeat(name, everyS, edge), s) ==
      if exists i, j :: LongPause(name, everyS, s, i, j) then Viol else Pend
  {
    if s != [] {
      hide Beats, LongGap;
      var last := |s| - 1;
      var front := s[..last];
      assert s == front + [s[last]];
      HeartbeatDecision(name, everyS, edge, front);
      BeatsStep(name, front, s[last]);
      if IsBeat(name, s[last]) {
        LongGapStep(everyS, Beats(name, front), s[last].timestamp.value);
        PauseAtEnd(name, everyS, s);
      }
      PausesOfFront(name, everyS, s);
    }
  }

  // A pause ends at the last event or lies before it.
  lemma PausesOfFront(name: string, everyS: real, s: seq<Event>)
    requires s != []
    ensures var last := |s| - 1;
      (exists i, j :: LongPause(name, everyS, s, i, j)) <==>
      (exists i, j :: LongPause(name, everyS, s[..last], i, j))
      || (IsBeat(name, s[last]) && exists i :: LongPause(name, everyS, s, i, last))
  {
    var last := |s| - 1;
    forall i, j | j != last ensures LongPause(name, everyS, s, i, j) <==> LongPause(name, everyS, s[..last], i, j) {
    }
    assert forall i :: !LongPause(name, everyS, s[..last], i, last);
  }

  lemma PauseAtEnd(name: string, everyS: real, s: seq<Event>)
    requires s != [] && IsBeat(name, s[|s| - 1])
    ensures var bs, last := Beats(name, s[..|s| - 1]), |s| - 1;
      bs != [] && (s[last].timestamp.value - bs[|bs| - 1]) as real > Micros(everyS) <==>
      exists i :: LongPause(name, everyS, s, i, last)
  {
    var last := |s| - 1;
    var front, bs := s[..last], Beats(name, s[..last]);
    BeatsAreBeats(name, front);
    hide Beats;
    assert forall m :: 0 <= m < last ==> front[m] == s[m];
    if bs != [] {
      var k := LastBeatAt(name, front);
      assert bs[|bs| - 1] == s[k].timestamp.value;
      assert forall i :: LongPause(name, everyS, s, i, last) ==> i == k;
      assert LongPause(name, everyS, s, k, last) <==>
             (s[last].timestamp.value - s[k].timestamp.value) as real > Micros(everyS);
    }
  }
}
