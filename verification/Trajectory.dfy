/** The three scorers as the source runs them, and how their verdicts nest. */
module Trajectory {
  import opened ToolCalls
  import opened Matching

  ghost function PairWeights(expected: seq<ExpectedCall>, observed: seq<ObservedCall>, withArgs: bool): Weights {
    (i, j) =>
      if 0 <= i < |expected| && 0 <= j < |observed| then PairScore(expected[i], observed[j], withArgs, false)
      else 0.0
  }

  function Names<Args>(calls: seq<Call<Args>>): (names: seq<string>)
    ensures |names| == |calls|
  {
    seq(|calls|, i requires 0 <= i < |calls| => calls[i].name)
  }

  lemma PairWeightsAreUnit(expected: seq<ExpectedCall>, observed: seq<ObservedCall>, withArgs: bool)
    ensures UnitWeights(PairWeights(expected, observed, withArgs), |expected|, |observed|)
  {
    forall i, j | 0 <= i < |expected| && 0 <= j < |observed|
      ensures 0.0 <= PairWeights(expected, observed, withArgs)(i, j) <= 1.0
    {
      PairScoreIsProper(expected[i], observed[j], withArgs, false);
    }
  }

  // exact ---------------------------------------------------------------------------

  // Same length, and every pair scores full under exact comparison.
  ghost predicate AllPairsExact(expected: seq<ExpectedCall>, observed: seq<ObservedCall>, withArgs: bool) {
    && |expected| == |observed|
    && forall i :: 0 <= i < |expected| ==> PairScore(expected[i], observed[i], withArgs, true) == 1.0
  }

  // The names of the calls that do not.
  ghost function Mismatched(expected: seq<ExpectedCall>, observed: seq<ObservedCall>, withArgs: bool): seq<string>
    requires |expected| == |observed|
  {
    if expected == [] then []
    else
      var last := |expected| - 1;
      Mismatched(expected[..last], observed[..last], withArgs)
      + if PairScore(expected[last], observed[last], withArgs, true) < 1.0 then [expected[last].name] else []
  }

  method ScoreExact(expected: seq<ExpectedCall>, observed: seq<ObservedCall>, withArgs: bool)
      returns (score: real, bad: seq<string>)
    ensures score == if AllPairsExact(expected, observed, withArgs) then 1.0 else 0.0
    ensures bad == if |expected| == |observed| then Mismatched(expected, observed, withArgs) else Names(expected)
  {
    if |expected| != |observed| {
      return 0.0, Names(expected);
    }
    bad := [];
    for i := 0 to |expected|
      invariant bad == Mismatched(expected[..i], observed[..i], withArgs)
      invariant bad == [] <==> forall k :: 0 <= k < i ==> PairScore(expected[k], observed[k], withArgs, true) == 1.0
    {
      var pair := ScorePair(expected[i], observed[i], withArgs, true);
      PairScoreIsProper(expected[i], observed[i], withArgs, true);
      assert expected[..i + 1][..i] == expected[..i] && observed[..i + 1][..i] == observed[..i];
      if pair < 1.0 {
        bad := bad + [expected[i].name];
      }
    }
    assert expected[..|expected|] == expected && observed[..|observed|] == observed;
    score := if bad == [] then 1.0 else 0.0;
  }

  // ordered -------------------------------------------------------------------------

  method ScoreOrdered(expected: seq<ExpectedCall>, observed: seq<ObservedCall>, withArgs: bool)
      returns (score: real, missing: seq<string>)
    ensures var w, n, m := PairWeights(expected, observed, withArgs), |expected|, |observed|;
      && score == (if n == 0 then 1.0 else Best(w, n, m) / n as real)
      && HeaviestMatching(w, n, m, Best(w, n, m))
    ensures missing == Unseen(expected, observed)
  {
    BestIsHeaviest(PairWeights(expected, observed, withArgs), |expected|, |observed|);
    if expected == [] { return 1.0, []; }
    hide HeaviestMatching;
    var n, m := |expected|, |observed|;
    ghost var w := PairWeights(expected, observed, withArgs);
    var dp := new real[n + 1, m + 1]((i, j) => 0.0);
    for i := 1 to n + 1
      invariant RowFilled(dp, w, i - 1)
      invariant forall k :: i <= k <= n ==> dp[k, 0] == 0.0
    {
      FillRow(dp, i, expected, observed, withArgs);
    }
    score := dp[n, m] / n as real;
    missing := Unseen(expected, observed);
  }

  ghost predicate RowFilled(dp: array2<real>, w: Weights, i: nat)
    reads dp
  {
    i < dp.Length0 && forall j :: 0 <= j < dp.Length1 ==> dp[i, j] == Best(w, i, j)
  }

  lemma PairWeightAt(expected: seq<ExpectedCall>, observed: seq<ObservedCall>, withArgs: bool, i: int, j: int)
    requires 0 <= i < |expected| && 0 <= j < |observed|
    ensures PairWeights(expected, observed, withArgs)(i, j) == PairScore(expected[i], observed[j], withArgs, false)
  {
  }

  // The inner loop.
  method FillRow(dp: array2<real>, i: nat, expected: seq<ExpectedCall>, observed: seq<ObservedCall>, withArgs: bool)
    requires dp.Length0 == |expected| + 1 && dp.Length1 == |observed| + 1 && 1 <= i <= |expected|
    requires RowFilled(dp, PairWeights(expected, observed, withArgs), i - 1) && dp[i, 0] == 0.0
    modifies dp
    ensures RowFilled(dp, PairWeights(expected, observed, withArgs), i)
    ensures forall k, j :: 0 <= k < dp.Length0 && 0 <= j < dp.Length1 && k != i ==> dp[k, j] == old(dp[k, j])
  {
    hide Best, PairWeights, PairScore;
    ghost var w := PairWeights(expected, observed, withArgs);
    NothingMatchesNothing(w, i);
    for j := 1 to |observed| + 1
      invariant forall l :: 0 <= l < j ==> dp[i, l] == Best(w, i, l)
      invariant forall k, l :: 0 <= k < dp.Length0 && 0 <= l < dp.Length1 && k != i ==> dp[k, l] == old(dp[k, l])
    {
      var pair := ScorePair(expected[i - 1], observed[j - 1], withArgs, false);
      PairWeightAt(expected, observed, withArgs, i - 1, j - 1);
      BestRecurs(w, i, j);
      assert dp[i - 1, j] == Best(w, i - 1, j) && dp[i - 1, j - 1] == Best(w, i - 1, j - 1);
      dp[i, j] := MaxReal(MaxReal(dp[i - 1, j], dp[i, j - 1]),
                          if pair > 0.0 then dp[i - 1, j - 1] + pair else 0.0);
    }
  }

  lemma NothingMatchesNothing(w: Weights, i: nat)
    ensures Best(w, i, 0) == 0.0
  {
  }

  lemma BestRecurs(w: Weights, i: nat, j: nat)
    requires i > 0 && j > 0
    ensures var pair := w(i - 1, j - 1);
      Best(w, i, j) == MaxReal(MaxReal(Best(w, i - 1, j), Best(w, i, j - 1)),
                               if pair > 0.0 then Best(w, i - 1, j - 1) + pair else 0.0)
  {
  }

  // Expected names that never arrived.
  function Unseen(expected: seq<ExpectedCall>, observed: seq<ObservedCall>): seq<string> {
    if expected == [] then []
    else
      var last := |expected| - 1;
      Unseen(expected[..last], observed)
      + if expected[last].name in Names(observed) then [] else [expected[last].name]
  }

  // subset --------------------------------------------------------------------------

  lemma FirstBestTurn(w: Weights, i: int, j: nat, taken: set<int>)
    ensures FirstBest(w, i, 0, taken) == -1
    ensures var b := FirstBest(w, i, j, taken);
      FirstBest(w, i, j + 1, taken) == if j !in taken && w(i, j) > (if b < 0 then 0.0 else w(i, b)) then j else b
  {
  }

  // The scan for one expected call: the first of the best free positive pairs.
  method PickBest(expected: seq<ExpectedCall>, observed: seq<ObservedCall>, withArgs: bool, i: nat, taken: set<int>)
      returns (best: real, bestJ: int)
    requires i < |expected|
    ensures bestJ == FirstBest(PairWeights(expected, observed, withArgs), i, |observed|, taken)
    ensures best == if bestJ < 0 then 0.0 else PairWeights(expected, observed, withArgs)(i, bestJ)
  {
    hide PairWeights, PairScore, FirstBest;
    ghost var w := PairWeights(expected, observed, withArgs);
    best, bestJ := 0.0, -1;
    FirstBestTurn(w, i, 0, taken);
    for j := 0 to |observed|
      invariant bestJ == FirstBest(w, i, j, taken)
      invariant best == if bestJ < 0 then 0.0 else w(i, bestJ)
    {
      FirstBestTurn(w, i, j, taken);
      if j !in taken {
        var pair := ScorePair(expected[i], observed[j], withArgs, false);
        PairWeightAt(expected, observed, withArgs, i, j);
        if pair > best {
          best, bestJ := pair, j;
        }
      }
    }
  }

  lemma GreedyStart(w: Weights, m: nat)
    ensures Greedy(w, 0, m) == GreedyState(0.0, {}, [])
  {
  }

  method ScoreSubset(expected: seq<ExpectedCall>, observed: seq<ObservedCall>, withArgs: bool)
      returns (score: real, missing: seq<string>)
    ensures expected == [] ==> score == 1.0 && missing == []
    ensures expected != [] ==>
      var s := Greedy(PairWeights(expected, observed, withArgs), |expected|, |observed|);
      && score == s.total / |expected| as real
      && |missing| == |s.missing|
      && forall k :: 0 <= k < |missing| ==> 0 <= s.missing[k] < |expected| && missing[k] == expected[s.missing[k]].name
  {
    if expected == [] { return 1.0, []; }
    hide PairWeights, Greedy, FirstBest;
    ghost var w, m := PairWeights(expected, observed, withArgs), |observed|;
    GreedyStart(w, m);
    var total := 0.0;
    missing := [];
    var taken: set<int> := {};
    for i := 0 to |expected|
      invariant var s := Greedy(w, i, m);
        && total == s.total && taken == s.taken && |missing| == |s.missing|
        && forall k :: 0 <= k < |missing| ==> 0 <= s.missing[k] < i && missing[k] == expected[s.missing[k]].name
    {
      var best, bestJ := PickBest(expected, observed, withArgs, i, taken);
      GreedyStep(w, i + 1, m);
      if bestJ >= 0 {
        total := total + best;
        taken := taken + {bestJ};
      } else {
        missing := missing + [expected[i].name];
      }
    }
    score := total / |expected| as real;
  }

  // The hierarchy -------------------------------------------------------------------

  // A full exact match is a full ordered match.
  lemma ExactImpliesOrdered(expected: seq<ExpectedCall>, observed: seq<ObservedCall>, withArgs: bool)
    requires AllPairsExact(expected, observed, withArgs)
    ensures Assignable(PairWeights(expected, observed, withArgs), |expected|, |observed|)
  {
    var n := |expected|;
    var js := seq(n, k => k);
    forall i | 0 <= i < n ensures PairWeights(expected, observed, withArgs)(i, js[i]) == 1.0 {
      PairScoreIsProper(expected[i], observed[i], withArgs, true);
    }
    assert FullAssignment(PairWeights(expected, observed, withArgs), js, n, n);
  }

  // exact full implies ordered full implies greedy subset full, arguments and matchers
  // included; every score lies in [0, 1].
  lemma ModesNest(expected: seq<ExpectedCall>, observed: seq<ObservedCall>, withArgs: bool)
    ensures var w, n, m := PairWeights(expected, observed, withArgs), |expected|, |observed|;
      && 0.0 <= Best(w, n, m) <= n as real && 0.0 <= Greedy(w, n, m).total <= n as real
      && (AllPairsExact(expected, observed, withArgs) ==> Best(w, n, m) == n as real)
      && (Best(w, n, m) == n as real <==> Assignable(w, n, m))
      && (Best(w, n, m) == n as real ==> Greedy(w, n, m).total == n as real)
  {
    var w, n, m := PairWeights(expected, observed, withArgs), |expected|, |observed|;
    PairWeightsAreUnit(expected, observed, withArgs);
    BestIsFullIffAssignable(w, n, m);
    GreedyIsBounded(w, n, m);
    if AllPairsExact(expected, observed, withArgs) { ExactImpliesOrdered(expected, observed, withArgs); }
    if Assignable(w, n, m) { AssignableMeansGreedyFull(w, n, m); }
  }

  // The three scorers run side by side on one input: where `exact` gives 1 so does
  // `ordered`, and where `ordered` gives 1 so does `subset`.
  method ScoreAll(expected: seq<ExpectedCall>, observed: seq<ObservedCall>, withArgs: bool)
      returns (exact: real, ordered: real, subset: real)
    ensures 0.0 <= exact <= 1.0 && 0.0 <= ordered <= 1.0 && 0.0 <= subset <= 1.0
    ensures (exact == 1.0 ==> ordered == 1.0) && (ordered == 1.0 ==> subset == 1.0)
  {
    var names: seq<string>;
    exact, names := ScoreExact(expected, observed, withArgs);
    ordered, names := ScoreOrdered(expected, observed, withArgs);
    subset, names := ScoreSubset(expected, observed, withArgs);
    ModesNest(expected, observed, withArgs);
    hide Best, Greedy;
    if expected != [] {
      ghost var w, n, m := PairWeights(expected, observed, withArgs), |expected|, |observed|;
      UnitQuotient(Best(w, n, m), n as real);
      UnitQuotient(Greedy(w, n, m).total, n as real);
    }
  }

  lemma UnitQuotient(x: real, n: real)
    requires 0.0 <= x <= n && n > 0.0
    ensures 0.0 <= x / n <= 1.0
    ensures x / n == 1.0 <==> x == n
  {
  }

  // With names alone the weights are the name weights, so the greedy total counts the
  // shared names and the ordered score is full exactly for subsequences.
  lemma NameOnlyScores(expected: seq<ExpectedCall>, observed: seq<ObservedCall>)
    ensures var w, n, m := PairWeights(expected, observed, false), |expected|, |observed|;
      && Greedy(w, n, m).total == |multiset(Names(expected)) * multiset(Names(observed))| as real
      && (Best(w, n, m) == n as real <==> Subsequence(Names(expected), Names(observed)))
  {
    var w, n, m := PairWeights(expected, observed, false), |expected|, |observed|;
    var es, os := Names(expected), Names(observed);
    var v := NameWeights(es, os);
    PairWeightsAreUnit(expected, observed, false);
    assert forall i, j :: w(i, j) == v(i, j);
    SameWeightsSameGreedy(w, v, n, m);
    GreedyCountsSharedNames(es, os, n);
    assert es[..n] == es;
    BestIsFullIffAssignable(w, n, m);
    NamesAssignableIffSubsequence(es, os);
    assert Assignable(w, n, m) <==> Assignable(v, n, m) by {
      forall js ensures FullAssignment(w, js, n, m) <==> FullAssignment(v, js, n, m) { }
    }
  }

  lemma {:induction false} SameWeightsSameBest(w: Weights, v: Weights, i: int, j: nat, taken: set<int>)
    requires forall k, l :: w(k, l) == v(k, l)
    ensures FirstBest(w, i, j, taken) == FirstBest(v, i, j, taken)
  {
    if j > 0 { SameWeightsSameBest(w, v, i, j - 1, taken); }
  }

  lemma {:induction false} SameWeightsSameGreedy(w: Weights, v: Weights, i: nat, m: nat)
    requires forall k, l :: w(k, l) == v(k, l)
    ensures Greedy(w, i, m) == Greedy(v, i, m)
  {
    if i > 0 {
      SameWeightsSameGreedy(w, v, i - 1, m);
      SameWeightsSameBest(w, v, i - 1, m, Greedy(w, i - 1, m).taken);
    }
  }

  // Which names are reported ----------------------------------------------------------------

  // The listed names are those of the expected calls at the rising positions `at`, which are
  // all the positions chosen.
  ghost predicate ListsNames(expected: seq<ExpectedCall>, listed: seq<string>, at: seq<int>, chosen: set<int>) {
    && |at| == |listed|
    && (forall i, j :: 0 <= i < j < |at| ==> at[i] < at[j])
    && (forall i :: i in at <==> i in chosen)
    && forall i :: 0 <= i < |at| ==> 0 <= at[i] < |expected| && listed[i] == expected[at[i]].name
  }

  lemma ListNext(expected: seq<ExpectedCall>, listed: seq<string>, at: seq<int>, chosen: set<int>)
    requires expected != [] && ListsNames(expected[..|expected| - 1], listed, at, chosen)
    ensures ListsNames(expected, listed, at, chosen)
    ensures var last := |expected| - 1;
      ListsNames(expected, listed + [expected[last].name], at + [last], chosen + {last})
  {
    var last := |expected| - 1;
    assert forall i :: 0 <= i < |at| ==> at[i] < last;
    forall i ensures i in at + [last] <==> i in chosen + {last} {
    }
  }

  // `ordered` reports the expected calls whose name was never observed, in order.
  lemma {:induction false} UnseenMeaning(expected: seq<ExpectedCall>, observed: seq<ObservedCall>)
      returns (at: seq<int>)
    ensures ListsNames(expected, Unseen(expected, observed), at,
      set i | 0 <= i < |expected| && forall j :: 0 <= j < |observed| ==> observed[j].name != expected[i].name)
  {
    if expected == [] {
      at := [];
    } else {
      var last := |expected| - 1;
      var front := UnseenMeaning(expected[..last], observed);
      var before := set i | 0 <= i < last
                            && forall j :: 0 <= j < |observed| ==> observed[j].name != expected[..last][i].name;
      var now := set i | 0 <= i < |expected|
                         && forall j :: 0 <= j < |observed| ==> observed[j].name != expected[i].name;
      NameIsSeen(expected[last].name, observed);
      ListNext(expected, Unseen(expected[..last], observed), front, before);
      hide Unseen, ListsNames;
      UnseenStep(expected, observed);
      if expected[last].name in Names(observed) {
        at := front;
        assert now == before;
      } else {
        at := front + [last];
        assert now == before + {last};
      }
    }
  }

  lemma UnseenStep(expected: seq<ExpectedCall>, observed: seq<ObservedCall>)
    requires expected != []
    ensures var last := |expected| - 1;
      Unseen(expected, observed) ==
      Unseen(expected[..last], observed) + if expected[last].name in Names(observed) then [] else [expected[last].name]
  {
  }

  lemma NameIsSeen(name: string, observed: seq<ObservedCall>)
    ensures name in Names(observed) <==> exists j :: 0 <= j < |observed| && observed[j].name == name
  {
    if j :| 0 <= j < |observed| && observed[j].name == name { assert Names(observed)[j] == name; }
  }

  // The positions that do not score full.
  ghost function MismatchedAt(expected: seq<ExpectedCall>, observed: seq<ObservedCall>, withArgs: bool): set<int>
    requires |expected| == |observed|
  {
    set i | 0 <= i < |expected| && PairScore(expected[i], observed[i], withArgs, true) != 1.0
  }

  lemma MismatchedStep(expected: seq<ExpectedCall>, observed: seq<ObservedCall>, withArgs: bool)
    requires |expected| == |observed| && expected != []
    ensures var last := |expected| - 1;
      var differs := PairScore(expected[last], observed[last], withArgs, true) != 1.0;
      var before := Mismatched(expected[..last], observed[..last], withArgs);
      var at := MismatchedAt(expected[..last], observed[..last], withArgs);
      && Mismatched(expected, observed, withArgs) == (if differs then before + [expected[last].name] else before)
      && MismatchedAt(expected, observed, withArgs) == (if differs then at + {last} else at)
  {
    hide PairScore;
    PairScoreIsProper(expected[|expected| - 1], observed[|expected| - 1], withArgs, true);
  }

  // `exact` on equally many calls reports their names, in order.
  lemma {:induction false} MismatchedMeaning(expected: seq<ExpectedCall>, observed: seq<ObservedCall>, withArgs: bool)
      returns (at: seq<int>)
    requires |expected| == |observed|
    ensures ListsNames(expected, Mismatched(expected, observed, withArgs), at,
                       MismatchedAt(expected, observed, withArgs))
  {
    if expected == [] {
      at := [];
    } else {
      hide PairScore, Mismatched, MismatchedAt, ListsNames;
      var last := |expected| - 1;
      at := MismatchedMeaning(expected[..last], observed[..last], withArgs);
      MismatchedStep(expected, observed, withArgs);
      ListNext(expected, Mismatched(expected[..last], observed[..last], withArgs), at,
               MismatchedAt(expected[..last], observed[..last], withArgs));
      if PairScore(expected[last], observed[last], withArgs, true) != 1.0 { at := at + [last]; }
    }
  }

  // No observed call still free at call i's turn scores anything against it.
  ghost predicate FindsNone(w: Weights, i: nat, m: nat) {
    forall b :: 0 <= b < m && b !in Greedy(w, i, m).taken ==> w(i, b) <= 0.0
  }

  lemma NoPickIff(w: Weights, i: nat, m: nat)
    ensures FirstBest(w, i, m, Greedy(w, i, m).taken) < 0 <==> FindsNone(w, i, m)
  {
    hide FirstBest, Greedy;
    FirstBestIsBest(w, i, m, Greedy(w, i, m).taken);
  }

  // `missing` lists those among the first n calls, in order.
  ghost predicate ListsMissing(w: Weights, missing: seq<int>, n: nat, m: nat) {
    && (forall i, j :: 0 <= i < j < |missing| ==> missing[i] < missing[j])
    && (forall i :: i in missing <==> 0 <= i < n && FindsNone(w, i, m))
  }

  lemma MissingNext(w: Weights, missing: seq<int>, n: nat, m: nat)
    requires ListsMissing(w, missing, n, m)
    ensures FindsNone(w, n, m) ==> ListsMissing(w, missing + [n], n + 1, m)
    ensures !FindsNone(w, n, m) ==> ListsMissing(w, missing, n + 1, m)
  {
    hide FindsNone;
    assert forall k :: 0 <= k < |missing| ==> missing[k] in missing;
  }

  lemma MissingStep(w: Weights, n: nat, m: nat)
    requires n > 0
    ensures var before, b := Greedy(w, n - 1, m).missing, FirstBest(w, n - 1, m, Greedy(w, n - 1, m).taken);
      Greedy(w, n, m).missing == if b < 0 then before + [n - 1] else before
  {
    hide FirstBest;
  }

  lemma MissingTurn(w: Weights, n: nat, m: nat)
    requires ListsMissing(w, Greedy(w, n, m).missing, n, m)
    ensures ListsMissing(w, Greedy(w, n + 1, m).missing, n + 1, m)
  {
    hide FirstBest, Greedy, FindsNone, ListsMissing;
    NoPickIff(w, n, m);
    MissingNext(w, Greedy(w, n, m).missing, n, m);
    MissingStep(w, n + 1, m);
  }

  // The greedy scan reports those calls.
  lemma {:induction false} MissingMeaning(w: Weights, n: nat, m: nat)
    ensures ListsMissing(w, Greedy(w, n, m).missing, n, m)
  {
    if n > 0 {
      hide Greedy, FindsNone, ListsMissing;
      MissingMeaning(w, n - 1, m);
      MissingTurn(w, n - 1, m);
    } else {
      GreedyStart(w, m);
    }
  }
}
