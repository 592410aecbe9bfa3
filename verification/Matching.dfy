/**
 Order-preserving partial matchings between expected and observed calls, over an
 abstract weight for each pair, and what the `ordered` and `subset` scorers compute.
 */
module Matching {

  type Weights = (int, int) -> real

  ghost predicate UnitWeights(w: Weights, n: nat, m: nat) {
    forall i, j :: 0 <= i < n && 0 <= j < m ==> 0.0 <= w(i, j) <= 1.0
  }

  // A matching of the first n expected with the first m observed, increasing on both sides.
  ghost predicate IsMatching(ps: seq<(int, int)>, n: nat, m: nat) {
    && (forall k :: 0 <= k < |ps| ==> 0 <= ps[k].0 < n && 0 <= ps[k].1 < m)
    && (forall k, l :: 0 <= k < l < |ps| ==> ps[k].0 < ps[l].0 && ps[k].1 < ps[l].1)
  }

  function Weight(w: Weights, ps: seq<(int, int)>): real {
    if ps == [] then 0.0
    else Weight(w, ps[..|ps| - 1]) + w(ps[|ps| - 1].0, ps[|ps| - 1].1)
  }

  function MaxReal(x: real, y: real): real {
    if x >= y then x else y
  }

  // The recurrence of the `dp` table.
  function Best(w: Weights, i: nat, j: nat): real {
    if i == 0 || j == 0 then 0.0
    else
      var pair := w(i - 1, j - 1);
      MaxReal(MaxReal(Best(w, i - 1, j), Best(w, i, j - 1)),
              if pair > 0.0 then Best(w, i - 1, j - 1) + pair else 0.0)
  }

  lemma BestStep(w: Weights, i: nat, j: nat)
    requires i > 0 && j > 0
    ensures Best(w, i, j) >= Best(w, i - 1, j) >= Best(w, i - 1, j - 1)
    ensures Best(w, i, j) >= Best(w, i, j - 1)
    ensures Best(w, i, j) >= Best(w, i - 1, j - 1) + w(i - 1, j - 1)
    ensures Best(w, i - 1, j - 1) >= 0.0
  {
    BestNonnegative(w, i - 1, j);
    BestNonnegative(w, i - 1, j - 1);
  }

  lemma {:induction false} BestNonnegative(w: Weights, i: nat, j: nat)
    ensures Best(w, i, j) >= 0.0
  {
    if i > 0 && j > 0 { BestNonnegative(w, i - 1, j); }
  }

  // Where the last pair lies decides which smaller table the matching fits.
  lemma LastPairPlaces(ps: seq<(int, int)>, i: nat, j: nat)
    requires IsMatching(ps, i, j) && ps != []
    ensures i > 0 && j > 0
    ensures var (a, b) := ps[|ps| - 1];
      && (a < i - 1 ==> IsMatching(ps, i - 1, j))
      && (b < j - 1 ==> IsMatching(ps, i, j - 1))
      && IsMatching(ps[..|ps| - 1], a, b)
  {
    var last := |ps| - 1;
    assert forall k :: 0 <= k < |ps| ==> ps[k].0 <= ps[last].0 && ps[k].1 <= ps[last].1;
  }

  // No matching outweighs the table entry.
  lemma {:induction false} BestIsUpperBound(w: Weights, i: nat, j: nat, ps: seq<(int, int)>)
    requires IsMatching(ps, i, j)
    ensures Weight(w, ps) <= Best(w, i, j)
    decreases i + j
  {
    if ps == [] {
      BestNonnegative(w, i, j);
    } else {
      var last := |ps| - 1;
      var (a, b) := ps[last];
      LastPairPlaces(ps, i, j);
      BestStep(w, i, j);
      hide IsMatching, Best;
      if a < i - 1 {
        BestIsUpperBound(w, i - 1, j, ps);
      } else if b < j - 1 {
        BestIsUpperBound(w, i, j - 1, ps);
      } else {
        BestIsUpperBound(w, i - 1, j - 1, ps[..last]);
      }
    }
  }

  lemma AppendPair(w: Weights, ps: seq<(int, int)>, a: nat, b: nat, n: nat, m: nat) returns (qs: seq<(int, int)>)
    requires IsMatching(ps, a, b) && a < n && b < m
    ensures IsMatching(qs, n, m) && Weight(w, qs) == Weight(w, ps) + w(a, b)
    ensures |qs| == |ps| + 1 && qs[..|ps|] == ps && qs[|ps|] == (a, b)
  {
    qs := ps + [(a, b)];
    assert qs[..|ps|] == ps;
  }

  lemma LooserBounds(ps: seq<(int, int)>, i: nat, j: nat, n: nat, m: nat)
    requires IsMatching(ps, i, j) && i <= n && j <= m
    ensures IsMatching(ps, n, m)
  {
  }

  // Some matching weighs exactly the table entry.
  lemma {:induction false} BestIsAttained(w: Weights, i: nat, j: nat) returns (ps: seq<(int, int)>)
    ensures IsMatching(ps, i, j) && Weight(w, ps) == Best(w, i, j)
    decreases i + j
  {
    if i == 0 || j == 0 {
      ps := [];
    } else {
      hide IsMatching, Weight;
      BestNonnegative(w, i - 1, j);
      var up, left, diagonal := Best(w, i - 1, j), Best(w, i, j - 1), Best(w, i - 1, j - 1) + w(i - 1, j - 1);
      if w(i - 1, j - 1) > 0.0 && diagonal >= up && diagonal >= left {
        var before := BestIsAttained(w, i - 1, j - 1);
        ps := AppendPair(w, before, i - 1, j - 1, i, j);
      } else if up >= left {
        ps := BestIsAttained(w, i - 1, j);
        LooserBounds(ps, i - 1, j, i, j);
      } else {
        ps := BestIsAttained(w, i, j - 1);
        LooserBounds(ps, i, j - 1, i, j);
      }
    }
  }

  // x is the greatest total weight of a matching of the first n with the first m.
  ghost predicate HeaviestMatching(w: Weights, n: nat, m: nat, x: real) {
    && (exists ps :: IsMatching(ps, n, m) && Weight(w, ps) == x)
    && (forall ps :: IsMatching(ps, n, m) ==> Weight(w, ps) <= x)
  }

  // The table holds the optimum.
  lemma BestIsHeaviest(w: Weights, n: nat, m: nat)
    ensures HeaviestMatching(w, n, m, Best(w, n, m))
  {
    var ps := BestIsAttained(w, n, m);
    forall qs | IsMatching(qs, n, m) ensures Weight(w, qs) <= Best(w, n, m) {
      BestIsUpperBound(w, n, m, qs);
    }
  }

  // An assignment gives every expected call its own observed call, in order.
  ghost predicate FullAssignment(w: Weights, js: seq<int>, n: nat, m: nat) {
    && |js| == n
    && (forall i :: 0 <= i < n ==> 0 <= js[i] < m && w(i, js[i]) == 1.0)
    && (forall i, k :: 0 <= i < k < n ==> js[i] < js[k])
  }

  ghost predicate Assignable(w: Weights, n: nat, m: nat) {
    exists js :: FullAssignment(w, js, n, m)
  }

  lemma {:induction false} MatchingIsSmall(w: Weights, ps: seq<(int, int)>, n: nat, m: nat)
    requires UnitWeights(w, n, m) && IsMatching(ps, n, m)
    ensures |ps| <= n && 0.0 <= Weight(w, ps) <= |ps| as real
    ensures Weight(w, ps) == n as real ==>
      |ps| == n && forall k :: 0 <= k < n ==> ps[k].0 == k && w(ps[k].0, ps[k].1) == 1.0
  {
    if ps != [] {
      var last := |ps| - 1;
      var n' := ps[last].0;
      assert IsMatching(ps[..last], n', m);
      MatchingIsSmall(w, ps[..last], n', m);
    }
  }

  lemma {:induction false} AssignmentWeight(w: Weights, js: seq<int>, n: nat, m: nat) returns (ps: seq<(int, int)>)
    requires FullAssignment(w, js, n, m)
    ensures IsMatching(ps, n, m) && Weight(w, ps) == n as real && |ps| == n
    ensures forall k :: 0 <= k < n ==> ps[k] == (k, js[k])
  {
    if n == 0 {
      ps := [];
    } else {
      var before := AssignmentWeight(w, js[..n - 1], n - 1, m);
      assert IsMatching(before, n - 1, js[n - 1]);
      ps := AppendPair(w, before, n - 1, js[n - 1], n, m);
    }
  }

  // The table's corner is full exactly when every expected call can be fully matched.
  lemma BestIsFullIffAssignable(w: Weights, n: nat, m: nat)
    requires UnitWeights(w, n, m)
    ensures 0.0 <= Best(w, n, m) <= n as real
    ensures Best(w, n, m) == n as real <==> Assignable(w, n, m)
  {
    var ps := BestIsAttained(w, n, m);
    MatchingIsSmall(w, ps, n, m);
    if Best(w, n, m) == n as real {
      var js := seq(n, k requires 0 <= k < n => ps[k].1);
      assert FullAssignment(w, js, n, m);
    }
    if Assignable(w, n, m) {
      var js :| FullAssignment(w, js, n, m);
      var qs := AssignmentWeight(w, js, n, m);
      BestIsUpperBound(w, n, m, qs);
    }
  }

  // Greedy matching -----------------------------------------------------------------

  // The observed call the greedy scan settles on: the first of the best positive pairs
  // among the first j, -1 if there is none.
  function FirstBest(w: Weights, i: int, j: nat, taken: set<int>): (b: int)
    ensures -1 <= b < j && b !in taken - {-1}
  {
    if j == 0 then -1
    else
      var b := FirstBest(w, i, j - 1, taken);
      if j - 1 !in taken && w(i, j - 1) > (if b < 0 then 0.0 else w(i, b)) then j - 1 else b
  }

  datatype GreedyState = GreedyState(total: real, taken: set<int>, missing: seq<int>)

  // The state after the first i expected calls.
  function Greedy(w: Weights, i: nat, m: nat): GreedyState {
    if i == 0 then GreedyState(0.0, {}, [])
    else
      var s := Greedy(w, i - 1, m);
      var b := FirstBest(w, i - 1, m, s.taken);
      if b < 0 then s.(missing := s.missing + [i - 1])
      else s.(total := s.total + w(i - 1, b), taken := s.taken + {b})
  }

  // The pick is a best one, and the first of the best.
  lemma {:induction false} FirstBestIsBest(w: Weights, i: int, j: nat, taken: set<int>)
    ensures var b := FirstBest(w, i, j, taken);
      && (b >= 0 ==> b !in taken && w(i, b) > 0.0)
      && (forall k :: 0 <= k < j && k !in taken ==> w(i, k) <= if b < 0 then 0.0 else w(i, b))
      && (forall k :: 0 <= k < b && k !in taken ==> w(i, k) < w(i, b))
  {
    if j > 0 { FirstBestIsBest(w, i, j - 1, taken); }
  }

  lemma {:induction false} GreedyIsBounded(w: Weights, i: nat, m: nat)
    requires UnitWeights(w, i, m)
    ensures 0.0 <= Greedy(w, i, m).total <= i as real
    ensures forall b :: b in Greedy(w, i, m).taken ==> 0 <= b < m
  {
    if i > 0 { GreedyIsBounded(w, i - 1, m); }
  }

  // Pair k of ps takes, for its call, the first of the best observed calls that no pair before
  // it took.
  ghost predicate TakesFirstBest(w: Weights, ps: seq<(int, int)>, k: int, m: nat)
    requires 0 <= k < |ps|
  {
    var (i, b) := ps[k];
    && 0 <= b < m && w(i, b) > 0.0
    && (forall l :: 0 <= l < k ==> ps[l].1 != b)
    && (forall c :: 0 <= c < m && (forall l :: 0 <= l < k ==> ps[l].1 != c) ==>
          w(i, c) < w(i, b) || (w(i, c) == w(i, b) && b <= c))
  }

  // The pairs of a greedy pass over the first n calls: in the order of the calls, each taking
  // its first best, every other call finding nothing left that scores.
  ghost predicate GreedyPass(w: Weights, ps: seq<(int, int)>, n: nat, m: nat) {
    && (forall k, l :: 0 <= k < l < |ps| ==> ps[k].0 < ps[l].0)
    && (forall k :: 0 <= k < |ps| ==> 0 <= ps[k].0 < n && TakesFirstBest(w, ps, k, m))
    && (forall i :: 0 <= i < n && (forall k :: 0 <= k < |ps| ==> ps[k].0 != i) ==> NothingLeft(w, ps, i, m))
  }

  // No observed call untaken before call i's turn scores anything against it.
  ghost predicate NothingLeft(w: Weights, ps: seq<(int, int)>, i: int, m: nat) {
    forall c :: 0 <= c < m && (forall k :: 0 <= k < |ps| && ps[k].0 < i ==> ps[k].1 != c) ==> w(i, c) <= 0.0
  }

  // `taken` is what the pairs took.
  ghost predicate TakenBy(ps: seq<(int, int)>, taken: set<int>) {
    forall b :: b in taken <==> exists k :: 0 <= k < |ps| && ps[k].1 == b
  }

  lemma PassLeaves(w: Weights, ps: seq<(int, int)>, taken: set<int>, n: nat, m: nat)
    requires GreedyPass(w, ps, n, m) && TakenBy(ps, taken) && FirstBest(w, n, m, taken) < 0
    ensures GreedyPass(w, ps, n + 1, m)
  {
    FirstBestIsBest(w, n, m, taken);
    hide FirstBest, TakesFirstBest;
    assert NothingLeft(w, ps, n, m);
    hide NothingLeft;
  }

  lemma PassTakes(w: Weights, ps: seq<(int, int)>, taken: set<int>, n: nat, m: nat)
    requires GreedyPass(w, ps, n, m) && TakenBy(ps, taken) && FirstBest(w, n, m, taken) >= 0
    ensures var b := FirstBest(w, n, m, taken);
      && GreedyPass(w, ps + [(n, b)], n + 1, m)
      && TakenBy(ps + [(n, b)], taken + {b})
      && Weight(w, ps + [(n, b)]) == Weight(w, ps) + w(n, b)
  {
    var b := FirstBest(w, n, m, taken);
    var more := ps + [(n, b)];
    FirstBestIsBest(w, n, m, taken);
    hide FirstBest;
    assert more[..|ps|] == ps;
    NextTakesFirstBest(w, ps, taken, n, b, m);
    EarlierTakesStand(w, ps, (n, b), n, m);
    hide TakesFirstBest, NothingLeft;
    forall k | 0 <= k < |more| ensures TakesFirstBest(w, more, k, m) {
      if k < |ps| { assert TakesFirstBest(w, ps, k, m); }
    }
    forall i | 0 <= i < n + 1 && (forall k :: 0 <= k < |more| ==> more[k].0 != i) ensures NothingLeft(w, more, i, m) {
      assert more[|ps|].0 != i;
      assert forall k :: 0 <= k < |ps| ==> ps[k] == more[k];
      assert NothingLeft(w, ps, i, m);
    }
    TakenByMore(ps, taken, (n, b));
  }

  lemma TakenByMore(ps: seq<(int, int)>, taken: set<int>, p: (int, int))
    requires TakenBy(ps, taken)
    ensures TakenBy(ps + [p], taken + {p.1})
  {
    var more := ps + [p];
    forall b ensures b in taken + {p.1} <==> exists k :: 0 <= k < |more| && more[k].1 == b {
      if b in taken {
        var k :| 0 <= k < |ps| && ps[k].1 == b;
        assert more[k].1 == b;
      }
      assert more[|ps|].1 == p.1;
    }
  }

  lemma NextTakesFirstBest(w: Weights, ps: seq<(int, int)>, taken: set<int>, n: nat, b: int, m: nat)
    requires TakenBy(ps, taken) && 0 <= b < m && b !in taken && w(n, b) > 0.0
    requires forall c :: 0 <= c < m && c !in taken ==> w(n, c) <= w(n, b)
    requires forall c :: 0 <= c < b && c !in taken ==> w(n, c) < w(n, b)
    ensures TakesFirstBest(w, ps + [(n, b)], |ps|, m)
  {
    var more := ps + [(n, b)];
    assert forall l :: 0 <= l < |ps| ==> more[l] == ps[l];
    forall c | 0 <= c < m && (forall l :: 0 <= l < |ps| ==> more[l].1 != c) ensures c !in taken {
      assert forall l :: 0 <= l < |ps| ==> ps[l].1 == more[l].1;
    }
  }

  lemma EarlierTakesStand(w: Weights, ps: seq<(int, int)>, p: (int, int), n: nat, m: nat)
    ensures forall k :: 0 <= k < |ps| && TakesFirstBest(w, ps, k, m) ==> TakesFirstBest(w, ps + [p], k, m)
    ensures forall i :: i <= p.0 && NothingLeft(w, ps, i, m) ==> NothingLeft(w, ps + [p], i, m)
  {
    var more := ps + [p];
    assert forall k :: 0 <= k < |ps| ==> more[k] == ps[k];
    forall i | i <= p.0 && NothingLeft(w, ps, i, m) ensures NothingLeft(w, more, i, m) {
      forall c | 0 <= c < m && (forall k :: 0 <= k < |more| && more[k].0 < i ==> more[k].1 != c)
        ensures w(i, c) <= 0.0
      {
        assert forall k :: 0 <= k < |ps| && ps[k].0 < i ==> more[k].1 != c;
      }
    }
  }

  // The greedy state is that of such a pass: its total weighs the pairs, `taken` holds their
  // observed calls.
  lemma {:induction false} GreedyMeaning(w: Weights, n: nat, m: nat) returns (ps: seq<(int, int)>)
    ensures GreedyPass(w, ps, n, m) && TakenBy(ps, Greedy(w, n, m).taken)
    ensures Greedy(w, n, m).total == Weight(w, ps)
  {
    if n == 0 {
      ps := [];
    } else {
      ps := GreedyMeaning(w, n - 1, m);
      GreedyStep(w, n, m);
      hide FirstBest, Greedy, GreedyPass, TakenBy, Weight;
      var taken := Greedy(w, n - 1, m).taken;
      var b := FirstBest(w, n - 1, m, taken);
      if b < 0 {
        PassLeaves(w, ps, taken, n - 1, m);
      } else {
        PassTakes(w, ps, taken, n - 1, m);
        ps := ps + [(n - 1, b)];
      }
    }
  }

  // The exchange argument: where an ordered assignment exists, greedy never picks past it,
  // so each call still finds its assigned partner free.
  lemma {:induction false} GreedyFollowsAssignment(w: Weights, js: seq<int>, n: nat, m: nat, i: nat)
    requires UnitWeights(w, n, m) && FullAssignment(w, js, n, m) && i <= n
    ensures Greedy(w, i, m).total == i as real
    ensures forall b :: b in Greedy(w, i, m).taken ==> exists k :: 0 <= k < i && b <= js[k]
  {
    if i > 0 {
      hide FirstBest;
      GreedyFollowsAssignment(w, js, n, m, i - 1);
      var s := Greedy(w, i - 1, m);
      var b := FirstBest(w, i - 1, m, s.taken);
      FirstBestIsBest(w, i - 1, m, s.taken);
      assert js[i - 1] !in s.taken;
      assert w(i - 1, js[i - 1]) == 1.0;
      assert b >= 0 && w(i - 1, b) == 1.0;
      assert b <= js[i - 1];
    }
  }

  // A perfect ordered match is a perfect greedy match.
  lemma AssignableMeansGreedyFull(w: Weights, n: nat, m: nat)
    requires UnitWeights(w, n, m) && Assignable(w, n, m)
    ensures Greedy(w, n, m).total == n as real
  {
    var js :| FullAssignment(w, js, n, m);
    GreedyFollowsAssignment(w, js, n, m, n);
  }

  // Names only ------------------------------------------------------------------------

  function NameWeights(expected: seq<string>, observed: seq<string>): Weights {
    (i, j) =>
      if 0 <= i < |expected| && 0 <= j < |observed| && expected[i] == observed[j] then 1.0 else 0.0
  }

  // The names of the taken observed calls.
  ghost function TakenNames(observed: seq<string>, taken: set<int>): multiset<string> {
    if observed == [] then multiset{}
    else
      var last := |observed| - 1;
      TakenNames(observed[..last], taken) + if last in taken then multiset{observed[last]} else multiset{}
  }

  lemma TakenStep(observed: seq<string>, taken: set<int>)
    requires observed != []
    ensures var last := |observed| - 1;
      TakenNames(observed, taken)
        == TakenNames(observed[..last], taken) + if last in taken then multiset{observed[last]} else multiset{}
  {
  }

  lemma {:induction false} TakeOne(observed: seq<string>, taken: set<int>, b: int)
    requires 0 <= b < |observed| && b !in taken
    ensures TakenNames(observed, taken + {b}) == TakenNames(observed, taken) + multiset{observed[b]}
  {
    hide TakenNames;
    var last := |observed| - 1;
    TakenStep(observed, taken);
    TakenStep(observed, taken + {b});
    if b < last {
      TakeOne(observed[..last], taken, b);
    } else {
      TakenBeyond(observed[..last], taken, b);
    }
  }

  lemma {:induction false} TakenBeyond(observed: seq<string>, taken: set<int>, b: int)
    requires b >= |observed|
    ensures TakenNames(observed, taken + {b}) == TakenNames(observed, taken)
  {
    if observed != [] { TakenBeyond(observed[..|observed| - 1], taken, b); }
  }

  predicate SomeLeft(observed: seq<string>, taken: set<int>, name: string) {
    exists j :: 0 <= j < |observed| && j !in taken && observed[j] == name
  }

  lemma {:induction false} TakenIsPart(observed: seq<string>, taken: set<int>, name: string)
    ensures TakenNames(observed, taken)[name] <= multiset(observed)[name]
    ensures SomeLeft(observed, taken, name) <==> TakenNames(observed, taken)[name] < multiset(observed)[name]
  {
    if observed != [] {
      var last := |observed| - 1;
      TakenIsPart(observed[..last], taken, name);
      assert observed == observed[..last] + [observed[last]];
      if SomeLeft(observed[..last], taken, name) {
        var j :| 0 <= j < last && j !in taken && observed[..last][j] == name;
        assert observed[j] == name;
      }
    }
  }

  lemma {:induction false} NothingTaken(observed: seq<string>)
    ensures TakenNames(observed, {}) == multiset{}
  {
    if observed != [] { NothingTaken(observed[..|observed| - 1]); }
  }

  // The names the first i expected calls share with the observed ones.
  function SharedNames(expected: seq<string>, observed: seq<string>, i: nat): multiset<string>
    requires i <= |expected|
  {
    multiset(expected[..i]) * multiset(observed)
  }

  // The next name joins them when some of it is left.
  lemma SharedNamesStep(expected: seq<string>, observed: seq<string>, i: nat)
    requires 0 < i <= |expected|
    ensures var x := expected[i - 1];
      var before, after := SharedNames(expected, observed, i - 1), SharedNames(expected, observed, i);
      && (before[x] < multiset(observed)[x] ==> after == before + multiset{x})
      && (before[x] < multiset(observed)[x] ==> |after| == |before| + 1)
      && (before[x] >= multiset(observed)[x] ==> after == before)
  {
    assert expected[..i] == expected[..i - 1] + [expected[i - 1]];
  }

  // What one greedy step does with its pick.
  lemma GreedyStep(w: Weights, i: nat, m: nat)
    requires i > 0
    ensures var s, t := Greedy(w, i - 1, m), Greedy(w, i, m); var b := FirstBest(w, i - 1, m, s.taken);
      && (b < 0 ==> t.total == s.total && t.taken == s.taken)
      && (b >= 0 ==> t.total == s.total + w(i - 1, b) && t.taken == s.taken + {b})
      && t.missing == s.missing + if b < 0 then [i - 1] else []
  {
  }

  lemma FreeNameWeight(expected: seq<string>, observed: seq<string>, i: nat, taken: set<int>)
    requires i < |expected|
    ensures var b := FirstBest(NameWeights(expected, observed), i, |observed|, taken);
      && (b >= 0 <==> SomeLeft(observed, taken, expected[i]))
      && (b >= 0 ==> b !in taken && observed[b] == expected[i] && NameWeights(expected, observed)(i, b) == 1.0)
  {
    var w := NameWeights(expected, observed);
    FirstBestIsBest(w, i, |observed|, taken);
    forall j | 0 <= j < |observed| && j !in taken && observed[j] == expected[i]
      ensures FirstBest(w, i, |observed|, taken) >= 0
    {
      assert w(i, j) == 1.0;
    }
  }

  // The next shared name is the pick's, if there is a pick.
  lemma PickSharesName(expected: seq<string>, observed: seq<string>, i: nat, taken: set<int>)
    requires 0 < i <= |expected| && TakenNames(observed, taken) == SharedNames(expected, observed, i - 1)
    ensures var b := FirstBest(NameWeights(expected, observed), i - 1, |observed|, taken);
      && (b < 0 ==> SharedNames(expected, observed, i) == SharedNames(expected, observed, i - 1))
      && (b >= 0 ==> TakenNames(observed, taken + {b}) == SharedNames(expected, observed, i))
      && (b >= 0 ==> |SharedNames(expected, observed, i)| == |SharedNames(expected, observed, i - 1)| + 1)
      && (b >= 0 ==> NameWeights(expected, observed)(i - 1, b) == 1.0)
  {
    hide TakenNames, FirstBest, SharedNames, NameWeights, SomeLeft;
    var b := FirstBest(NameWeights(expected, observed), i - 1, |observed|, taken);
    FreeNameWeight(expected, observed, i - 1, taken);
    TakenIsPart(observed, taken, expected[i - 1]);
    SharedNamesStep(expected, observed, i);
    if b >= 0 {
      TakeOne(observed, taken, b);
    }
  }

  // With names alone the greedy total is the size of the multiset intersection.
  lemma {:induction false} GreedyCountsSharedNames(expected: seq<string>, observed: seq<string>, i: nat)
    requires i <= |expected|
    ensures var s := Greedy(NameWeights(expected, observed), i, |observed|);
      && TakenNames(observed, s.taken) == SharedNames(expected, observed, i)
      && s.total == |SharedNames(expected, observed, i)| as real
  {
    if i == 0 {
      NothingTaken(observed);
    } else {
      hide TakenNames, FirstBest, SharedNames, NameWeights, Greedy;
      var w, m := NameWeights(expected, observed), |observed|;
      GreedyCountsSharedNames(expected, observed, i - 1);
      GreedyStep(w, i, m);
      PickSharesName(expected, observed, i, Greedy(w, i - 1, m).taken);
    }
  }

  ghost predicate Subsequence(xs: seq<string>, ys: seq<string>) {
    exists js: seq<int> ::
      && |js| == |xs|
      && (forall i :: 0 <= i < |xs| ==> 0 <= js[i] < |ys| && ys[js[i]] == xs[i])
      && (forall i, k :: 0 <= i < k < |js| ==> js[i] < js[k])
  }

  // With names alone the ordered score is full exactly for subsequences.
  lemma NamesAssignableIffSubsequence(expected: seq<string>, observed: seq<string>)
    ensures Assignable(NameWeights(expected, observed), |expected|, |observed|) <==> Subsequence(expected, observed)
  {
    var w := NameWeights(expected, observed);
    if Assignable(w, |expected|, |observed|) {
      var js :| FullAssignment(w, js, |expected|, |observed|);
      forall i | 0 <= i < |expected| ensures observed[js[i]] == expected[i] {
        assert w(i, js[i]) == 1.0;
      }
    }
    if Subsequence(expected, observed) {
      var js: seq<int> :|
        && |js| == |expected|
        && (forall i :: 0 <= i < |expected| ==> 0 <= js[i] < |observed| && observed[js[i]] == expected[i])
        && (forall i, k :: 0 <= i < k < |js| ==> js[i] < js[k]);
      assert FullAssignment(w, js, |expected|, |observed|);
    }
  }
}
