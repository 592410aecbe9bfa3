/**
 What each gate rule asserts of a complete stream (`Holds`), and what its monitor
 commits to on a prefix (`Decide`), for the counting, presence, absence, duration,
 order and heartbeat rules.
 */
module Rules {
  import opened Options
  import opened Events

  datatype Rule =
    | Count(matches: Matcher, op: Op, want: real)
    | Present(matchers: seq<Matcher>)
    | Absent(matchers: seq<Matcher>, allow: seq<Matcher>)
    | Duration(matches: Matcher, field: string, op: Op, target: real)
    | Order(names: seq<string>, withinS: Option<real>, tieSkewMs: Option<real>)
    | Heartbeat(name: string, everyS: real, edgeSilence: bool)

  // Counting ------------------------------------------------------------------

  function Matched(m: Matcher, s: seq<Event>): nat {
    if s == [] then 0
    else Matched(m, s[..|s| - 1]) + if m(s[|s| - 1]) then 1 else 0
  }

  function DecideCount(op: Op, want: real, got: nat): Verdict {
    match op
    case Ge => if got as real >= want then Sat else Pend
    case Gt => if got > 0 && got as real > want then Sat else Pend
    case Eq => if got > 0 && got as real > want then Viol else Pend
    case Le => if got > 0 && got as real > want then Viol else Pend
    case Lt => if got > 0 && got as real >= want then Viol else Pend
    case Ne => Pend
  }

  // Presence and absence ------------------------------------------------------

  predicate Hit(m: Matcher, s: seq<Event>) {
    exists k :: 0 <= k < |s| && m(s[k])
  }

  predicate AllHit(ms: seq<Matcher>, s: seq<Event>) {
    forall i :: 0 <= i < |ms| ==> Hit(ms[i], s)
  }

  predicate AnyMatches(ms: seq<Matcher>, e: Event) {
    exists i :: 0 <= i < |ms| && ms[i](e)
  }

  predicate Offends(ms: seq<Matcher>, allow: seq<Matcher>, e: Event) {
    !AnyMatches(allow, e) && AnyMatches(ms, e)
  }

  // Duration ------------------------------------------------------------------

  predicate WithinThreshold(field: string, op: Op, target: real, e: Event) {
    field in e.fields && e.fields[field].Number? && Compare(op, e.fields[field].n, target)
  }

  predicate OffendsDuration(m: Matcher, field: string, op: Op, target: real, e: Event) {
    m(e) && !WithinThreshold(field, op, target, e)
  }

  // Order ---------------------------------------------------------------------

  // A timestamped event carrying the name.
  predicate Occurs(name: string, e: Event) {
    e.name == Some(name) && e.timestamp.Some?
  }

  function FirstOf(name: string, s: seq<Event>): (r: Option<Event>)
    ensures r.Some? ==> Occurs(name, r.value) && r.value in s
  {
    if s == [] then None
    else
      var before := FirstOf(name, s[..|s| - 1]);
      if before.Some? then before
      else if Occurs(name, s[|s| - 1]) then Some(s[|s| - 1])
      else None
  }

  // `_pair_ok`: emit sequence if both carry it, else the skew window, else (ts, seq).
  predicate PairOk(skewMs: Option<real>, a: Event, b: Event)
    requires a.timestamp.Some? && b.timestamp.Some?
  {
    if a.emit.Some? && b.emit.Some? then a.emit.value <= b.emit.value
    else if skewMs.Some? && Apart(a, b) as real <= skewMs.value * 1000.0 then true
    else KeyLeq(a, b)
  }

  function Apart(a: Event, b: Event): int
    requires a.timestamp.Some? && b.timestamp.Some?
  {
    if a.timestamp.value <= b.timestamp.value then b.timestamp.value - a.timestamp.value
    else a.timestamp.value - b.timestamp.value
  }

  predicate GapOk(withinS: Option<real>, a: Event, b: Event)
    requires a.timestamp.Some? && b.timestamp.Some?
  {
    withinS.Some? ==> (b.timestamp.value - a.timestamp.value) as real <= withinS.value * 1000000.0
  }

  predicate AllSeen(names: seq<string>, s: seq<Event>) {
    forall i :: 0 <= i < |names| ==> FirstOf(names[i], s).Some?
  }

  // Listed neighbours that have both occurred respect the bound.
  predicate GapsOk(names: seq<string>, withinS: Option<real>, s: seq<Event>) {
    forall i :: 0 <= i < |names| - 1 && FirstOf(names[i], s).Some? && FirstOf(names[i + 1], s).Some?
      ==> GapOk(withinS, FirstOf(names[i], s).value, FirstOf(names[i + 1], s).value)
  }

  predicate Ordered(names: seq<string>, skewMs: Option<real>, s: seq<Event>) {
    && AllSeen(names, s)
    && forall i :: 0 <= i < |names| - 1
         ==> PairOk(skewMs, FirstOf(names[i], s).value, FirstOf(names[i + 1], s).value)
  }

  // i and j are neighbours among the names that have occurred.
  predicate SeenNeighbours(names: seq<string>, s: seq<Event>, i: int, j: int) {
    && 0 <= i < j < |names|
    && FirstOf(names[i], s).Some? && FirstOf(names[j], s).Some?
    && forall k :: i < k < j ==> FirstOf(names[k], s).None?
  }

  // `_ordered_so_far`.
  predicate OrderedSoFar(names: seq<string>, skewMs: Option<real>, s: seq<Event>) {
    forall i, j :: 0 <= i < j < |names| && SeenNeighbours(names, s, i, j)
      ==> PairOk(skewMs, FirstOf(names[i], s).value, FirstOf(names[j], s).value)
  }

  // Heartbeat -----------------------------------------------------------------

  // The timestamps of the beats, in feed order.
  function Beats(name: string, s: seq<Event>): seq<int> {
    if s == [] then []
    else
      var e := s[|s| - 1];
      Beats(name, s[..|s| - 1]) + if Occurs(name, e) then [e.timestamp.value] else []
  }

  function Stamps(s: seq<Event>): seq<int> {
    if s == [] then []
    else
      var e := s[|s| - 1];
      Stamps(s[..|s| - 1]) + if e.timestamp.Some? then [e.timestamp.value] else []
  }

  function Max(x: int, y: int): int { if x >= y then x else y }

  function Min(x: int, y: int): int { if x <= y then x else y }

  function Highest(xs: seq<int>): int
    requires xs != []
  {
    if |xs| == 1 then xs[0] else Max(Highest(xs[..|xs| - 1]), xs[|xs| - 1])
  }

  function Lowest(xs: seq<int>): int
    requires xs != []
  {
    if |xs| == 1 then xs[0] else Min(Lowest(xs[..|xs| - 1]), xs[|xs| - 1])
  }

  // `max_gap_us`.
  function MaxGap(beats: seq<int>): int {
    if |beats| < 2 then 0
    else Max(MaxGap(beats[..|beats| - 1]), beats[|beats| - 1] - beats[|beats| - 2])
  }

  // Some beat came more than `everyS` after the one before it.
  predicate LongGap(everyS: real, beats: seq<int>) {
    exists i :: 1 <= i < |beats| && (beats[i] - beats[i - 1]) as real > Micros(everyS)
  }

  // The larger silence at the two ends of the stream, policed only on request.
  function EdgeGap(edgeSilence: bool, beats: seq<int>, stamps: seq<int>): int
    requires beats != [] && (edgeSilence ==> stamps != [])
  {
    if edgeSilence then Max(beats[0] - Lowest(stamps), Highest(stamps) - beats[|beats| - 1]) else 0
  }

  function Micros(seconds: real): real { seconds * 1000000.0 }

  lemma {:induction false} BeatsAreStamps(name: string, s: seq<Event>)
    ensures forall b :: b in Beats(name, s) ==> b in Stamps(s)
    ensures Beats(name, s) != [] ==> Stamps(s) != []
  {
    if s != [] { BeatsAreStamps(name, s[..|s| - 1]); }
  }

  predicate HeartbeatHolds(name: string, everyS: real, edgeSilence: bool, s: seq<Event>) {
    var beats := Beats(name, s);
    BeatsAreStamps(name, s);
    beats != [] && Max(MaxGap(beats), EdgeGap(edgeSilence, beats, Stamps(s))) as real <= Micros(everyS)
  }

  // The rules -----------------------------------------------------------------

  // `passed` of the collapsed check on a reachable, complete read of s.
  predicate Holds(r: Rule, s: seq<Event>) {
    match r
    case Count(m, op, want) => Compare(op, Matched(m, s) as real, want)
    case Present(ms) => AllHit(ms, s)
    case Absent(ms, allow) => forall k :: 0 <= k < |s| ==> !Offends(ms, allow, s[k])
    case Duration(m, field, op, target) =>
      Hit(m, s) && forall k :: 0 <= k < |s| ==> !OffendsDuration(m, field, op, target, s[k])
    case Order(names, within, skew) => Ordered(names, skew, s) && GapsOk(names, within, s)
    case Heartbeat(name, every, edge) => HeartbeatHolds(name, every, edge, s)
  }

  // The verdict a monitor would latch on prefix s if it has not latched before.
  function Decide(r: Rule, s: seq<Event>): Verdict {
    match r
    case Count(m, op, want) => DecideCount(op, want, Matched(m, s))
    case Present(ms) => if s != [] && AllHit(ms, s) then Sat else Pend
    case Absent(ms, allow) =>
      if exists k :: 0 <= k < |s| && Offends(ms, allow, s[k]) then Viol else Pend
    case Duration(m, field, op, target) =>
      if exists k :: 0 <= k < |s| && OffendsDuration(m, field, op, target, s[k]) then Viol else Pend
    case Order(names, within, skew) =>
      if !OrderedSoFar(names, skew, s) || !GapsOk(names, within, s) then Viol
      else if names != [] && AllSeen(names, s) then Sat
      else Pend
    case Heartbeat(name, every, edge) =>
      if LongGap(every, Beats(name, s)) then Viol else Pend
  }
}
