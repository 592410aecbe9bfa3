/** The rules in plain terms: what each asserts, said of the events themselves. */
module RuleMeaning {
  import opened Options
  import opened Events
  import opened Rules
  import opened Monitors
  import opened OrderInevitability
  import Exactness

  // Comparing -----------------------------------------------------------------------------

  // The operators that hold when x lies above, at or below y.
  ghost predicate Meets(op: Op, x: real, y: real) {
    || (x > y && op in {Ge, Gt, Ne})
    || (x == y && op in {Ge, Eq, Le})
    || (x < y && op in {Le, Lt, Ne})
  }

  lemma CompareMeets(op: Op, x: real, y: real)
    ensures Compare(op, x, y) <==> Meets(op, x, y)
  {
  }

  // Counting ------------------------------------------------------------------------------

  ghost function Matches(m: Matcher, s: seq<Event>): set<int> {
    set k | 0 <= k < |s| && m(s[k])
  }

  lemma {:induction false} MatchedCounts(m: Matcher, s: seq<Event>)
    ensures Matched(m, s) == |Matches(m, s)|
  {
    if s != [] {
      var last := |s| - 1;
      MatchedCounts(m, s[..last]);
      assert Matches(m, s) == Matches(m, s[..last]) + if m(s[last]) then {last} else {};
    }
  }

  // A count passes when the number of matching events meets the target. It can only be
  // decided upwards: `sat` for a lower bound that is met, `viol` for a target overshot.
  lemma CountMeaning(m: Matcher, op: Op, want: real, s: seq<Event>)
    ensures var n := |Matches(m, s)| as real;
      && (Holds(Count(m, op, want), s) <==> Meets(op, n, want))
      && (Decide(Count(m, op, want), s) == Sat <==>
          (op == Ge && n >= want) || (op == Gt && n > want && n > 0.0))
      && (Decide(Count(m, op, want), s) == Viol <==>
          n > 0.0 && ((op in {Eq, Le} && n > want) || (op == Lt && n >= want)))
  {
    MatchedCounts(m, s);
    CompareMeets(op, Matched(m, s) as real, want);
  }

  // A rule is flagged tautological exactly when it is a count whose target every
  // non-negative number meets; such a count cannot fail.
  lemma TautologicalIff(r: Rule)
    ensures Tautological(r) <==> r.Count? && forall x: real :: x >= 0.0 ==> Meets(r.op, x, r.want)
  {
    if r.Count? && !Tautological(r) {
      var x := if r.op in {Ge, Gt} || r.want < 0.0 then 0.0 else if r.op == Ne then r.want else r.want + 1.0;
      assert x >= 0.0 && !Meets(r.op, x, r.want);
    }
  }

  lemma TautologyCannotFail(r: Rule, s: seq<Event>)
    requires Tautological(r)
    ensures Holds(r, s)
  {
    TautologicalIff(r);
    CountMeaning(r.matches, r.op, r.want, s);
  }

  // The counts that cannot fail are those flagged and, besides, `!=` against what is no count.
  lemma CountCannotFailIff(m: Matcher, op: Op, want: real)
    requires Exactness.Satisfiable(m)
    ensures (forall s :: Holds(Count(m, op, want), s)) <==>
      Tautological(Count(m, op, want)) || (op == Ne && want != want.Floor as real)
  {
    if Tautological(Count(m, op, want)) {
      forall s ensures Holds(Count(m, op, want), s) { TautologyCannotFail(Count(m, op, want), s); }
    } else if op != Ne || want == want.Floor as real {
      var s := Exactness.ReachCount(m, [], FailingCount(op, want));
      assert [] + s == s && !Holds(Count(m, op, want), s);
    }
  }

  function FailingCount(op: Op, want: real): (n: nat)
    requires !Tautological(Count(_ => true, op, want)) && (op == Ne ==> want == want.Floor as real)
    ensures !Compare(op, n as real, want)
  {
    match op
    case Ge => 0
    case Gt => 0
    case Eq => if want == 0.0 then 1 else 0
    case Ne => want.Floor
    case Le => if want < 0.0 then 0 else want.Floor + 1
    case Lt => if want < 0.0 then 0 else want.Floor + 1
  }

  // Presence and absence ----------------------------------------------------------------------

  // Every matcher has an event of its own; decided as soon as that is so.
  lemma PresentMeaning(ms: seq<Matcher>, s: seq<Event>)
    ensures var all := forall i :: 0 <= i < |ms| ==> Matches(ms[i], s) != {};
      && (Holds(Present(ms), s) <==> all)
      && Decide(Present(ms), s) == if s != [] && all then Sat else Pend
  {
    forall i | 0 <= i < |ms| ensures Hit(ms[i], s) <==> Matches(ms[i], s) != {} {
      if Hit(ms[i], s) {
        var k :| 0 <= k < |s| && ms[i](s[k]);
        assert k in Matches(ms[i], s);
      }
    }
  }

  // An event that some forbidden matcher meets and no allowed one excuses decides `viol`;
  // without one the rule passes.
  lemma AbsentMeaning(ms: seq<Matcher>, allow: seq<Matcher>, s: seq<Event>)
    ensures var clean := forall k, i :: 0 <= k < |s| && 0 <= i < |ms| && ms[i](s[k]) ==>
        exists j :: 0 <= j < |allow| && allow[j](s[k]);
      && (Holds(Absent(ms, allow), s) <==> clean)
      && Decide(Absent(ms, allow), s) == if clean then Pend else Viol
  {
    var clean := forall k, i :: 0 <= k < |s| && 0 <= i < |ms| && ms[i](s[k]) ==>
      exists j :: 0 <= j < |allow| && allow[j](s[k]);
    assert clean <==> forall k :: 0 <= k < |s| ==> !Offends(ms, allow, s[k]);
  }

  // Duration ----------------------------------------------------------------------------------

  // The event carries a number under the field, and it compares.
  ghost predicate CarriesGood(field: string, op: Op, target: real, e: Event) {
    exists x: real :: (field, Number(x)) in e.fields.Items && Meets(op, x, target)
  }

  // Passing takes a match, and of every match a number that compares. A match whose field is
  // missing, is no number or does not compare decides `viol`.
  lemma DurationMeaning(m: Matcher, field: string, op: Op, target: real, s: seq<Event>)
    ensures var good := forall k :: 0 <= k < |s| && m(s[k]) ==> CarriesGood(field, op, target, s[k]);
      && (Holds(Duration(m, field, op, target), s) <==> good && exists k :: 0 <= k < |s| && m(s[k]))
      && Decide(Duration(m, field, op, target), s) == if good then Pend else Viol
  {
    forall k | 0 <= k < |s|
      ensures OffendsDuration(m, field, op, target, s[k]) <==> m(s[k]) && !CarriesGood(field, op, target, s[k])
    {
      WithinMeansGood(field, op, target, s[k]);
    }
    hide CarriesGood, OffendsDuration;
    assert Hit(m, s) <==> exists k :: 0 <= k < |s| && m(s[k]);
  }

  lemma WithinMeansGood(field: string, op: Op, target: real, e: Event)
    ensures WithinThreshold(field, op, target, e) <==> CarriesGood(field, op, target, e)
  {
    if field in e.fields && e.fields[field].Number? {
      var x := e.fields[field].n;
      CompareMeets(op, x, target);
      assert (field, Number(x)) in e.fields.Items;
    }
  }

  // Order -------------------------------------------------------------------------------------

  // Position k holds the first timestamped event of that name.
  ghost predicate FirstAt(s: seq<Event>, name: string, k: int) {
    && 0 <= k < |s| && s[k].name == Some(name) && s[k].timestamp.Some?
    && forall j :: 0 <= j < k ==> s[j].name != Some(name) || s[j].timestamp.None?
  }

  lemma {:induction false} FirstOfIsFirst(name: string, s: seq<Event>)
    ensures forall k :: FirstAt(s, name, k) ==> FirstOf(name, s) == Some(s[k])
    ensures FirstOf(name, s).Some? ==> exists k :: FirstAt(s, name, k)
  {
    if s != [] {
      var last := |s| - 1;
      FirstOfIsFirst(name, s[..last]);
      forall k ensures FirstAt(s[..last], name, k) <==> k < last && FirstAt(s, name, k) {
      }
      if FirstOf(name, s[..last]).Some? {
        var k :| FirstAt(s[..last], name, k);
        assert FirstAt(s, name, k);
      } else {
        forall j | 0 <= j < last ensures !Occurs(name, s[j]) {
          if Occurs(name, s[j]) { assert s[j] in s[..last]; OccurrenceIsFound(name, s[..last], s[j]); }
        }
        if FirstOf(name, s).Some? { assert FirstAt(s, name, last); }
      }
    }
  }

  // a does not come after b: by emit sequence where both carry one, otherwise by timestamp
  // and then sequence, timestamps no further apart than the window counting as equal.
  ghost predicate NotAfter(skewMs: Option<real>, a: Event, b: Event)
    requires a.timestamp.Some? && b.timestamp.Some?
  {
    var t, u := a.timestamp.value, b.timestamp.value;
    if a.emit.Some? && b.emit.Some? then !(b.emit.value < a.emit.value)
    else
      || (skewMs.Some? && -(skewMs.value * 1000.0) <= (u - t) as real <= skewMs.value * 1000.0)
      || t < u
      || (t == u && !((if b.sequence.Some? then b.sequence.value else 0)
                      < (if a.sequence.Some? then a.sequence.value else 0)))
  }

  lemma PairOkMeansNotAfter(skew: Option<real>, a: Event, b: Event)
    requires a.timestamp.Some? && b.timestamp.Some?
    ensures PairOk(skew, a, b) <==> NotAfter(skew, a, b)
  {
  }

  ghost predicate SoonAfter(withinS: Option<real>, a: Event, b: Event)
    requires a.timestamp.Some? && b.timestamp.Some?
  {
    withinS.Some? ==> b.timestamp.value as real <= a.timestamp.value as real + withinS.value * 1000000.0
  }

  // The positions of the first occurrences, in the order listed.
  ghost predicate FirstsAt(names: seq<string>, s: seq<Event>, at: seq<int>) {
    |at| == |names| && forall i :: 0 <= i < |names| ==> FirstAt(s, names[i], at[i])
  }

  // First occurrences of listed neighbours come in order and within the bound.
  ghost predicate InTurn(within: Option<real>, skew: Option<real>, s: seq<Event>, at: seq<int>)
    requires forall i :: 0 <= i < |at| ==> 0 <= at[i] < |s| && s[at[i]].timestamp.Some?
  {
    forall i, j :: 0 <= i < j < |at| && j == i + 1 ==>
      NotAfter(skew, s[at[i]], s[at[j]]) && SoonAfter(within, s[at[i]], s[at[j]])
  }

  lemma FirstsOf(names: seq<string>, s: seq<Event>)
    ensures forall i, k :: 0 <= i < |names| && FirstAt(s, names[i], k) ==> FirstOf(names[i], s) == Some(s[k])
    ensures forall i :: 0 <= i < |names| && FirstOf(names[i], s).Some? ==> exists k :: FirstAt(s, names[i], k)
  {
    forall i | 0 <= i < |names|
      ensures forall k :: FirstAt(s, names[i], k) ==> FirstOf(names[i], s) == Some(s[k])
      ensures FirstOf(names[i], s).Some? ==> exists k :: FirstAt(s, names[i], k)
    {
      FirstOfIsFirst(names[i], s);
    }
  }

  // The rule passes when every name occurs and their first occurrences come in turn.
  lemma OrderMeaning(names: seq<string>, within: Option<real>, skew: Option<real>, s: seq<Event>)
    ensures Holds(Order(names, within, skew), s) <==> exists at :: FirstsAt(names, s, at) && InTurn(within, skew, s, at)
  {
    FirstsOf(names, s);
    hide FirstOf, PairOk, NotAfter;
    if AllSeen(names, s) {
      var at := seq(|names|, i requires 0 <= i < |names| => var k :| FirstAt(s, names[i], k); k);
      assert FirstsAt(names, s, at);
      FirstsInTurn(names, within, skew, s, at);
    }
    forall at | FirstsAt(names, s, at) ensures Holds(Order(names, within, skew), s) <==> InTurn(within, skew, s, at) {
      FirstsInTurn(names, within, skew, s, at);
    }
  }

  lemma FirstsInTurn(names: seq<string>, within: Option<real>, skew: Option<real>, s: seq<Event>, at: seq<int>)
    requires FirstsAt(names, s, at)
    ensures Holds(Order(names, within, skew), s) <==> InTurn(within, skew, s, at)
  {
    FirstsOf(names, s);
    hide FirstOf, PairOk, NotAfter;
    forall i, j | 0 <= i < j < |at| && j == i + 1
      ensures PairOk(skew, s[at[i]], s[at[j]]) <==> NotAfter(skew, s[at[i]], s[at[j]])
      ensures GapOk(within, s[at[i]], s[at[j]]) <==> SoonAfter(within, s[at[i]], s[at[j]])
    {
      PairOkMeansNotAfter(skew, s[at[i]], s[at[j]]);
    }
    hide FirstAt, SoonAfter, GapOk;
    assert forall i :: 0 <= i < |names| ==> FirstOf(names[i], s) == Some(s[at[i]]);
  }

  // Names i and j occurred, first at positions a and b, and no name between them has.
  ghost predicate Consecutive(names: seq<string>, s: seq<Event>, i: int, j: int, a: int, b: int) {
    && 0 <= i < j < |names| && FirstAt(s, names[i], a) && FirstAt(s, names[j], b)
    && forall k, c :: i < k < j ==> !FirstAt(s, names[k], c)
  }

  // Two such names out of order, or listed side by side and too far apart.
  ghost predicate BadPair(names: seq<string>, within: Option<real>, skew: Option<real>, s: seq<Event>,
                          i: int, j: int, a: int, b: int) {
    && Consecutive(names, s, i, j, a, b)
    && (!NotAfter(skew, s[a], s[b]) || (j == i + 1 && !SoonAfter(within, s[a], s[b])))
  }

  ghost predicate OutOfTurn(names: seq<string>, within: Option<real>, skew: Option<real>, s: seq<Event>) {
    exists i, j, a, b :: BadPair(names, within, skew, s, i, j, a, b)
  }

  lemma NeighboursAt(names: seq<string>, s: seq<Event>, i: int, j: int) returns (a: int, b: int)
    requires SeenNeighbours(names, s, i, j)
    ensures Consecutive(names, s, i, j, a, b)
    ensures FirstOf(names[i], s) == Some(s[a]) && FirstOf(names[j], s) == Some(s[b])
  {
    FirstsOf(names, s);
    hide FirstOf;
    a :| FirstAt(s, names[i], a);
    b :| FirstAt(s, names[j], b);
  }

  lemma OutOfTurnBreaks(names: seq<string>, within: Option<real>, skew: Option<real>, s: seq<Event>,
                        i: int, j: int, a: int, b: int)
    requires BadPair(names, within, skew, s, i, j, a, b)
    ensures !OrderedSoFar(names, skew, s) || !GapsOk(names, within, s)
  {
    FirstsOf(names, s);
    hide FirstOf, PairOk, NotAfter;
    assert SeenNeighbours(names, s, i, j);
    PairOkMeansNotAfter(skew, s[a], s[b]);
    if j == i + 1 { assert FirstOf(names[i + 1], s) == Some(s[b]); }
  }

  lemma DisorderIsOutOfTurn(names: seq<string>, within: Option<real>, skew: Option<real>, s: seq<Event>)
    requires !OrderedSoFar(names, skew, s)
    ensures OutOfTurn(names, within, skew, s)
  {
    hide FirstOf, PairOk, NotAfter;
    var i, j :| SeenNeighbours(names, s, i, j) && !PairOk(skew, FirstOf(names[i], s).value, FirstOf(names[j], s).value);
    var a, b := NeighboursAt(names, s, i, j);
    PairOkMeansNotAfter(skew, s[a], s[b]);
    assert BadPair(names, within, skew, s, i, j, a, b);
  }

  lemma LongGapIsOutOfTurn(names: seq<string>, within: Option<real>, skew: Option<real>, s: seq<Event>)
    requires !GapsOk(names, within, s)
    ensures OutOfTurn(names, within, skew, s)
  {
    hide FirstOf, PairOk, NotAfter;
    var i :| 0 <= i < |names| - 1 && FirstOf(names[i], s).Some? && FirstOf(names[i + 1], s).Some?
      && !GapOk(within, FirstOf(names[i], s).value, FirstOf(names[i + 1], s).value);
    assert SeenNeighbours(names, s, i, i + 1);
    var a, b := NeighboursAt(names, s, i, i + 1);
    assert BadPair(names, within, skew, s, i, i + 1, a, b);
  }

  lemma OutOfTurnIff(names: seq<string>, within: Option<real>, skew: Option<real>, s: seq<Event>)
    ensures OutOfTurn(names, within, skew, s) <==> !OrderedSoFar(names, skew, s) || !GapsOk(names, within, s)
  {
    hide OrderedSoFar, GapsOk, BadPair;
    if OutOfTurn(names, within, skew, s) {
      var i, j, a, b :| BadPair(names, within, skew, s, i, j, a, b);
      OutOfTurnBreaks(names, within, skew, s, i, j, a, b);
    }
    if !OrderedSoFar(names, skew, s) { DisorderIsOutOfTurn(names, within, skew, s); }
    if !GapsOk(names, within, s) { LongGapIsOutOfTurn(names, within, skew, s); }
  }

  // The stream holds a timestamped event of that name.
  ghost predicate OccursIn(s: seq<Event>, name: string) {
    exists k :: 0 <= k < |s| && s[k].name == Some(name) && s[k].timestamp.Some?
  }

  lemma OccursIff(name: string, s: seq<Event>)
    ensures FirstOf(name, s).Some? <==> OccursIn(s, name)
  {
    if FirstOf(name, s).Some? {
      var k :| 0 <= k < |s| && s[k] == FirstOf(name, s).value;
    }
    if k :| 0 <= k < |s| && s[k].name == Some(name) && s[k].timestamp.Some? {
      OccurrenceIsFound(name, s, s[k]);
    }
  }

  lemma AllOccurIff(names: seq<string>, s: seq<Event>)
    ensures AllSeen(names, s) <==> forall i :: 0 <= i < |names| ==> OccursIn(s, names[i])
  {
    forall i | 0 <= i < |names| ensures FirstOf(names[i], s).Some? <==> OccursIn(s, names[i]) {
      OccursIff(names[i], s);
    }
    hide FirstOf, OccursIn;
  }

  // The verdict before the stream ends: `viol` for occurred names out of turn, otherwise
  // `sat` once every name of a non-empty list has occurred.
  lemma OrderDecision(names: seq<string>, within: Option<real>, skew: Option<real>, s: seq<Event>)
    ensures Decide(Order(names, within, skew), s) ==
      if OutOfTurn(names, within, skew, s) then Viol
      else if names != [] && forall i :: 0 <= i < |names| ==> OccursIn(s, names[i]) then Sat
      else Pend
  {
    OutOfTurnIff(names, within, skew, s);
    AllOccurIff(names, s);
    hide OutOfTurn, OrderedSoFar, GapsOk, OccursIn, AllSeen;
  }
}
