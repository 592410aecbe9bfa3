/** nDCG over a ranking of mutation kills, and the audit that scores one. */
module Ranking {
  import opened Multisets
  import opened Options
  import opened Slices

  // `1 / log2(i + 2)`: all the proofs need is that it is positive and strictly decreasing.
  type Discount = nat -> real

  ghost predicate Discounting(d: Discount) {
    && (forall i: nat :: d(i) > 0.0)
    && (forall i: nat, j: nat :: i < j ==> d(i) > d(j))
  }

  function Dcg(d: Discount, rels: seq<real>): real {
    if rels == [] then 0.0
    else Dcg(d, rels[..|rels| - 1]) + rels[|rels| - 1] * d(|rels| - 1)
  }

  function Sum(xs: seq<real>): real {
    if xs == [] then 0.0 else Sum(xs[..|xs| - 1]) + xs[|xs| - 1]
  }

  ghost predicate Nonincreasing(xs: seq<real>) {
    forall i, j :: 0 <= i < j < |xs| ==> xs[i] >= xs[j]
  }

  ghost predicate Nonnegative(xs: seq<real>) {
    forall x :: x in xs ==> x >= 0.0
  }

  // `sorted(rels, reverse=True)`.
  function SortedDescending(xs: seq<real>): (r: seq<real>)
    ensures multiset(r) == multiset(xs) && |r| == |xs|
  {
    if xs == [] then []
    else
      assert xs == xs[..|xs| - 1] + [xs[|xs| - 1]];
      InsertDescending(xs[|xs| - 1], SortedDescending(xs[..|xs| - 1]))
  }

  function InsertDescending(x: real, s: seq<real>): (r: seq<real>)
    ensures multiset(r) == multiset(s) + multiset{x} && |r| == |s| + 1
  {
    if s == [] || s[|s| - 1] >= x then s + [x]
    else
      assert s == s[..|s| - 1] + [s[|s| - 1]];
      InsertDescending(x, s[..|s| - 1]) + [s[|s| - 1]]
  }

  lemma InsertedMember(x: real, s: seq<real>, y: real)
    requires y in InsertDescending(x, s)
    ensures y == x || y in s
  {
    hide InsertDescending;
    assert y in multiset(InsertDescending(x, s));
  }

  lemma {:induction false} InsertKeepsOrder(x: real, s: seq<real>)
    requires Nonincreasing(s)
    ensures Nonincreasing(InsertDescending(x, s))
  {
    if s != [] && s[|s| - 1] < x {
      var front, last := s[..|s| - 1], s[|s| - 1];
      InsertKeepsOrder(x, front);
      forall y | y in InsertDescending(x, front) ensures y >= last {
        InsertedMember(x, front, y);
      }
      AppendKeepsOrder(InsertDescending(x, front), last);
    } else {
      forall y | y in s ensures y >= x {
        assert y >= s[|s| - 1];
      }
      AppendKeepsOrder(s, x);
    }
  }

  lemma AppendKeepsOrder(s: seq<real>, x: real)
    requires Nonincreasing(s)
    requires forall y :: y in s ==> y >= x
    ensures Nonincreasing(s + [x])
  {
    forall i, j | 0 <= i < j < |s + [x]| ensures (s + [x])[i] >= (s + [x])[j] {
      if j == |s| { assert s[i] in s; }
    }
  }

  lemma {:induction false} SortedIsNonincreasing(xs: seq<real>)
    ensures Nonincreasing(SortedDescending(xs))
  {
    if xs != [] {
      SortedIsNonincreasing(xs[..|xs| - 1]);
      InsertKeepsOrder(xs[|xs| - 1], SortedDescending(xs[..|xs| - 1]));
    }
  }

  // Prefix sums -------------------------------------------------------------------------

  lemma {:induction false} SumConcat(a: seq<real>, b: seq<real>)
    ensures Sum(a + b) == Sum(a) + Sum(b)
  {
    if b == [] {
      assert a + b == a;
    } else {
      SumConcat(a, b[..|b| - 1]);
      assert (a + b)[..|a + b| - 1] == a + b[..|b| - 1];
    }
  }

  lemma SumOfOne(x: real)
    ensures Sum([x]) == x
  {
    assert [x][..0] == [];
  }

  lemma SumWithout(x: seq<real>, k: nat)
    requires k < |x|
    ensures Sum(x) == x[k] + Sum(Without(x, k))
  {
    hide Sum;
    assert x == x[..k] + ([x[k]] + x[k + 1..]);
    SumConcat(x[..k], [x[k]] + x[k + 1..]);
    SumConcat([x[k]], x[k + 1..]);
    SumConcat(x[..k], x[k + 1..]);
    SumOfOne(x[k]);
  }

  lemma {:induction false} ShiftedSumIsSmaller(s: seq<real>, n: nat)
    requires Nonincreasing(s) && n < |s|
    ensures Sum(s[1..][..n]) <= Sum(s[..n])
  {
    if n > 0 {
      ShiftedSumIsSmaller(s, n - 1);
      assert s[1..][..n][..n - 1] == s[1..][..n - 1] && s[..n][..n - 1] == s[..n - 1];
    }
  }

  lemma DropLargest(x: seq<real>, s: seq<real>, k: nat)
    requires s != [] && k < |x| && x[k] == s[0] && multiset(x) <= multiset(s)
    ensures multiset(Without(x, k)) <= multiset(s[1..]) && Sum(x) == s[0] + Sum(Without(x, k))
  {
    hide Sum, Without;
    SumWithout(x, k);
    WithoutOne(x, k);
    assert s == [s[0]] + s[1..];
    CancelOne(multiset(Without(x, k)), multiset(s[1..]), s[0]);
  }

  lemma AvoidsLargest(x: seq<real>, s: seq<real>)
    requires s != [] && s[0] !in x && multiset(x) <= multiset(s)
    ensures multiset(x) <= multiset(s[1..])
  {
    assert s == [s[0]] + s[1..];
    forall v ensures multiset(x)[v] <= multiset(s[1..])[v] {
      assert multiset(x)[v] <= multiset(s)[v];
    }
  }

  lemma SumFromFirst(s: seq<real>, n: nat)
    requires 0 < n <= |s|
    ensures Sum(s[..n]) == s[0] + Sum(s[1..][..n - 1])
  {
    assert s[..n] == [s[0]] + s[1..][..n - 1];
    SumConcat([s[0]], s[1..][..n - 1]);
    SumOfOne(s[0]);
  }

  lemma SourceIsNonempty(x: seq<real>, s: seq<real>)
    requires x != [] && multiset(x) <= multiset(s)
    ensures s != []
  {
    assert x[0] in multiset(x) && multiset(x)[x[0]] <= multiset(s)[x[0]];
  }

  lemma TailIsNonincreasing(s: seq<real>)
    requires Nonincreasing(s) && s != []
    ensures Nonincreasing(s[1..])
  {
  }

  // Any choice of n elements sums to at most the n largest.
  lemma {:induction false} TopSumIsLargest(x: seq<real>, s: seq<real>)
    requires Nonincreasing(s) && multiset(x) <= multiset(s)
    ensures |x| <= |s| && Sum(x) <= Sum(s[..|x|])
    decreases |s|
  {
    if x == [] {
      assert s[..0] == [];
    } else {
      hide Sum;
      SourceIsNonempty(x, s);
      if s[0] in x {
        hide Nonincreasing;
        TailIsNonincreasing(s);
        var k :| 0 <= k < |x| && x[k] == s[0];
        DropLargest(x, s, k);
        TopSumIsLargest(Without(x, k), s[1..]);
        SumFromFirst(s, |x|);
      } else {
        hide Nonincreasing;
        TailIsNonincreasing(s);
        AvoidsLargest(x, s);
        TopSumIsLargest(x, s[1..]);
        ShiftedSumIsSmaller(s, |x|);
      }
    }
  }

  lemma PrefixSumBelowSorted(xs: seq<real>, n: nat)
    requires n <= |xs|
    ensures Sum(xs[..n]) <= Sum(SortedDescending(xs)[..n])
  {
    SortedIsNonincreasing(xs);
    assert xs == xs[..n] + xs[n..];
    TopSumIsLargest(xs[..n], SortedDescending(xs));
  }

  // The rearrangement inequality ----------------------------------------------------------

  // By how much the prefix sums of y exceed those of x.
  function Lead(x: seq<real>, y: seq<real>, k: nat): real
    requires k <= |x| && k <= |y|
  {
    Sum(y[..k]) - Sum(x[..k])
  }

  function Gain(d: Discount, x: seq<real>, y: seq<real>, k: nat): real
    requires k <= |x| && k <= |y|
  {
    Dcg(d, y[..k]) - Dcg(d, x[..k])
  }

  lemma StepFormulas(d: Discount, x: seq<real>, y: seq<real>, k: nat)
    requires 1 <= k <= |x| && k <= |y|
    ensures Lead(x, y, k) == Lead(x, y, k - 1) + y[k - 1] - x[k - 1]
    ensures Gain(d, x, y, k) == Gain(d, x, y, k - 1) + (y[k - 1] - x[k - 1]) * d(k - 1)
  {
    assert x[..k][..k - 1] == x[..k - 1] && y[..k][..k - 1] == y[..k - 1];
  }

  // The gain is at least the discounted lead; where they agree, no earlier prefix led.
  lemma {:induction false} GainCoversLead(d: Discount, x: seq<real>, y: seq<real>, k: nat)
    requires Discounting(d) && 1 <= k <= |x| && k <= |y|
    requires forall j :: 0 <= j <= k ==> Lead(x, y, j) >= 0.0
    ensures Gain(d, x, y, k) >= Lead(x, y, k) * d(k - 1)
    ensures Gain(d, x, y, k) == Lead(x, y, k) * d(k - 1) ==> forall j :: 0 <= j < k ==> Lead(x, y, j) == 0.0
  {
    StepFormulas(d, x, y, k);
    if k == 1 {
      assert Lead(x, y, 0) == 0.0;
    } else {
      GainCoversLead(d, x, y, k - 1);
      ExcessStep(Gain(d, x, y, k - 1), Lead(x, y, k - 1), y[k - 1] - x[k - 1], d(k - 2), d(k - 1));
    }
  }

  // gain + step * q - (lead + step) * q, rewritten.
  lemma ExcessStep(gain: real, lead: real, step: real, p: real, q: real)
    requires gain >= lead * p && lead >= 0.0 && p > q > 0.0
    ensures gain + step * q >= (lead + step) * q
    ensures gain + step * q == (lead + step) * q ==> lead == 0.0 && gain == lead * p
  {
    assert (lead + step) * q == lead * q + step * q;
    assert lead * p - lead * q == lead * (p - q);
    if lead > 0.0 {
      assert lead * (p - q) > 0.0;
    }
  }

  lemma {:induction false} EqualLeadsEqualPrefix(x: seq<real>, y: seq<real>, k: nat)
    requires k <= |x| && k <= |y|
    requires forall j :: 0 <= j <= k ==> Lead(x, y, j) == 0.0
    ensures x[..k] == y[..k]
  {
    if k > 0 {
      EqualLeadsEqualPrefix(x, y, k - 1);
      StepFormulas(i => 1.0, x, y, k);
      assert x[..k] == x[..k - 1] + [x[k - 1]] && y[..k] == y[..k - 1] + [y[k - 1]];
    }
  }

  // DCG never exceeds ideal DCG, at any cut, and meets it only with the ideal prefix.
  lemma DcgBelowIdeal(d: Discount, rels: seq<real>, k: nat)
    requires Discounting(d) && k <= |rels|
    ensures Dcg(d, rels[..k]) <= Dcg(d, SortedDescending(rels)[..k])
    ensures Dcg(d, rels[..k]) == Dcg(d, SortedDescending(rels)[..k]) <==> rels[..k] == SortedDescending(rels)[..k]
  {
    hide SortedDescending;
    forall j | 0 <= j <= k ensures Lead(rels, SortedDescending(rels), j) >= 0.0 {
      PrefixSumBelowSorted(rels, j);
    }
    DominatedDcg(d, rels, SortedDescending(rels), k);
  }

  // Prefix sums that never trail make a discounted sum that does not trail, and equality
  // only for equal prefixes.
  lemma DominatedDcg(d: Discount, x: seq<real>, y: seq<real>, k: nat)
    requires Discounting(d) && k <= |x| && k <= |y|
    requires forall j :: 0 <= j <= k ==> Lead(x, y, j) >= 0.0
    ensures Gain(d, x, y, k) >= 0.0
    ensures Gain(d, x, y, k) == 0.0 ==> x[..k] == y[..k]
  {
    hide Lead, Dcg, Sum;
    if k > 0 {
      GainCoversLead(d, x, y, k);
      NoGainNoLead(Gain(d, x, y, k), Lead(x, y, k), d(k - 1));
      if Gain(d, x, y, k) == 0.0 {
        EqualLeadsEqualPrefix(x, y, k);
      }
    }
  }

  lemma NoGainNoLead(gain: real, lead: real, q: real)
    requires gain >= lead * q && lead >= 0.0 && q > 0.0
    ensures gain >= 0.0
    ensures gain == 0.0 ==> lead == 0.0 && gain == lead * q
  {
    assert lead * q >= 0.0;
    if lead > 0.0 {
      assert lead * q > 0.0;
    }
  }

  // nDCG ------------------------------------------------------------------------------------

  // How many relevances `rels[:k]` keeps.
  function TopLength(n: nat, k: Option<int>): (t: nat)
    ensures t <= n
  {
    if k.None? then n else TakeLength(n, k.value)
  }

  // None when IDCG is zero; the source's rounding to six places is left out.
  function Ndcg(d: Discount, rels: seq<real>, k: Option<int>): Option<real> {
    var top := TopLength(|rels|, k);
    var dcg, idcg := Dcg(d, rels[..top]), Dcg(d, SortedDescending(rels)[..top]);
    if idcg == 0.0 then None else Some(dcg / idcg)
  }

  lemma {:induction false} DcgOfNonnegative(d: Discount, rels: seq<real>)
    requires Discounting(d) && Nonnegative(rels)
    ensures Dcg(d, rels) >= 0.0
    ensures Dcg(d, rels) == 0.0 <==> forall i :: 0 <= i < |rels| ==> rels[i] == 0.0
  {
    if rels != [] {
      var last := |rels| - 1;
      assert rels[last] in rels && forall x :: x in rels[..last] ==> x in rels;
      DcgOfNonnegative(d, rels[..last]);
      assert forall i :: 0 <= i < last ==> rels[..last][i] == rels[i];
      NoGainNoLead(rels[last] * d(last), rels[last], d(last));
    }
  }

  lemma Quotient(x: real, y: real)
    requires 0.0 <= x <= y && y > 0.0
    ensures 0.0 <= x / y <= 1.0
    ensures x / y == 1.0 <==> x == y
  {
  }

  lemma IdealIsNonnegative(rels: seq<real>, k: nat)
    requires Nonnegative(rels) && k <= |rels|
    ensures Nonnegative(rels[..k]) && Nonnegative(SortedDescending(rels)[..k])
  {
    hide SortedDescending;
    assert forall x :: x in rels[..k] ==> x in rels;
    forall x | x in SortedDescending(rels)[..k] ensures x >= 0.0 {
      assert x in SortedDescending(rels);
      assert x in multiset(SortedDescending(rels));
      assert x in rels;
    }
  }

  // nDCG is a proper ranking score: in [0, 1], and 1 exactly when the scored prefix is
  // the ideal one.
  lemma NdcgIsProper(d: Discount, rels: seq<real>, k: Option<int>)
    requires Discounting(d) && Nonnegative(rels)
    ensures var top, score := TopLength(|rels|, k), Ndcg(d, rels, k);
      && (score.Some? ==> 0.0 <= score.value <= 1.0)
      && (score.Some? ==> (score.value == 1.0 <==> rels[..top] == SortedDescending(rels)[..top]))
  {
    hide SortedDescending;
    var top := TopLength(|rels|, k);
    DcgBelowIdeal(d, rels, top);
    IdealIsNonnegative(rels, top);
    DcgOfNonnegative(d, rels[..top]);
    DcgOfNonnegative(d, SortedDescending(rels)[..top]);
    if Ndcg(d, rels, k).Some? {
      Quotient(Dcg(d, rels[..top]), Dcg(d, SortedDescending(rels)[..top]));
    }
  }

  lemma LastIsLeast(xs: seq<real>)
    requires Nonincreasing(xs) && xs != []
    ensures var front, last := xs[..|xs| - 1], xs[|xs| - 1];
      Nonincreasing(front) && (front != [] ==> front[|front| - 1] >= last) && xs == front + [last]
  {
  }

  lemma LeastIsAppended(x: real, s: seq<real>)
    requires s != [] ==> s[|s| - 1] >= x
    ensures InsertDescending(x, s) == s + [x]
  {
  }

  lemma SortedStep(xs: seq<real>)
    requires xs != []
    ensures SortedDescending(xs) == InsertDescending(xs[|xs| - 1], SortedDescending(xs[..|xs| - 1]))
  {
    hide InsertDescending;
  }

  lemma {:induction false} NonincreasingIsSorted(xs: seq<real>)
    requires Nonincreasing(xs)
    ensures SortedDescending(xs) == xs
  {
    if xs != [] {
      hide Nonincreasing, InsertDescending, SortedDescending;
      LastIsLeast(xs);
      SortedStep(xs);
      NonincreasingIsSorted(xs[..|xs| - 1]);
      LeastIsAppended(xs[|xs| - 1], xs[..|xs| - 1]);
    }
  }

  // Without truncation the score is 1 exactly for a non-increasing order, and it is
  // undefined exactly when nothing is relevant.
  lemma UntruncatedNdcg(d: Discount, rels: seq<real>)
    requires Discounting(d) && Nonnegative(rels)
    ensures var score := Ndcg(d, rels, None);
      && (score.None? <==> forall i :: 0 <= i < |rels| ==> rels[i] == 0.0)
      && (score.Some? ==> (score.value == 1.0 <==> Nonincreasing(rels)))
  {
    var ideal := SortedDescending(rels);
    assert rels[..|rels|] == rels && ideal[..|rels|] == ideal;
    NdcgIsProper(d, rels, None);
    SortedIsNonincreasing(rels);
    if Nonincreasing(rels) { NonincreasingIsSorted(rels); }
    IdealIsNonnegative(rels, |rels|);
    DcgOfNonnegative(d, ideal);
    SameZeroes(rels, ideal);
  }

  lemma SameZeroes(xs: seq<real>, ys: seq<real>)
    requires multiset(xs) == multiset(ys)
    ensures (forall i :: 0 <= i < |xs| ==> xs[i] == 0.0) <==> (forall i :: 0 <= i < |ys| ==> ys[i] == 0.0)
  {
    forall i | 0 <= i < |xs| ensures xs[i] in ys { assert xs[i] in multiset(ys); }
    forall i | 0 <= i < |ys| ensures ys[i] in xs { assert ys[i] in multiset(xs); }
  }

  // In plain terms ----------------------------------------------------------------------------

  // DCG is linear in each position, at that position's discount, and zero for a ranking of
  // nothing relevant: it is the discounted sum.
  lemma {:induction false} DcgIsDiscountedSum(d: Discount, rels: seq<real>, i: nat, x: real)
    requires i < |rels|
    ensures Dcg(d, rels[i := x]) - Dcg(d, rels) == (x - rels[i]) * d(i)
    ensures (forall k :: 0 <= k < |rels| ==> rels[k] == 0.0) ==> Dcg(d, rels) == 0.0
  {
    var last := |rels| - 1;
    var front, changed := rels[..last], rels[i := x];
    if i < last {
      DcgIsDiscountedSum(d, front, i, x);
      assert changed[..last] == front[i := x];
    } else {
      assert changed[..last] == front;
      if last > 0 { DcgIsDiscountedSum(d, front, 0, front[0]); }
      assert (x - rels[last]) * d(last) == x * d(last) - rels[last] * d(last);
    }
  }

  // The best DCG any order of the relevances has in its first `top` places.
  ghost predicate BestDcg(d: Discount, rels: seq<real>, top: nat, best: real) {
    && (exists order: seq<real> :: multiset(order) == multiset(rels) && top <= |order| && Dcg(d, order[..top]) == best)
    && (forall order: seq<real> :: multiset(order) == multiset(rels) && top <= |order| ==> Dcg(d, order[..top]) <= best)
  }

  lemma OrderBelowIdeal(d: Discount, order: seq<real>, ideal: seq<real>, top: nat)
    requires Discounting(d) && Nonincreasing(ideal) && multiset(order) == multiset(ideal)
    requires top <= |order| && top <= |ideal|
    ensures Dcg(d, order[..top]) <= Dcg(d, ideal[..top])
  {
    forall j | 0 <= j <= top ensures Lead(order, ideal, j) >= 0.0 {
      assert order == order[..j] + order[j..];
      TopSumIsLargest(order[..j], ideal);
    }
    DominatedDcg(d, order, ideal, top);
  }

  lemma IdealIsBest(d: Discount, rels: seq<real>, top: nat)
    requires Discounting(d) && top <= |rels|
    ensures BestDcg(d, rels, top, Dcg(d, SortedDescending(rels)[..top]))
  {
    SortedIsNonincreasing(rels);
    hide SortedDescending, Dcg, Discounting, Nonincreasing;
    forall order: seq<real> | multiset(order) == multiset(rels) && top <= |order|
      ensures Dcg(d, order[..top]) <= Dcg(d, SortedDescending(rels)[..top])
    {
      OrderBelowIdeal(d, order, SortedDescending(rels), top);
    }
  }

  lemma BestIsUnique(d: Discount, rels: seq<real>, top: nat, a: real, b: real)
    requires BestDcg(d, rels, top, a) && BestDcg(d, rels, top, b)
    ensures a == b
  {
    hide Dcg;
  }

  lemma QuotientTimes(x: real, y: real)
    requires y != 0.0
    ensures x / y * y == x
  {
  }

  // nDCG is the ranking's DCG relative to the best that its relevances allow, over the places
  // `[:k]` keeps; it is missing when that best is zero.
  lemma NdcgMeaning(d: Discount, rels: seq<real>, k: Option<int>, top: nat, best: real)
    requires Discounting(d) && BestDcg(d, rels, top, best)
    requires top <= |rels| && forall i :: 0 <= i < top <==> InTop(|rels|, k, i)
    ensures Ndcg(d, rels, k).None? <==> best == 0.0
    ensures Ndcg(d, rels, k).Some? ==> Ndcg(d, rels, k).value * best == Dcg(d, rels[..top])
  {
    hide SortedDescending, Dcg, BestDcg, Discounting, InTop;
    TopIsKept(|rels|, k, top);
    IdealIsBest(d, rels, top);
    BestIsUnique(d, rels, top, Dcg(d, SortedDescending(rels)[..top]), best);
    if best != 0.0 { QuotientTimes(Dcg(d, rels[..top]), best); }
  }

  // Whether position i is among `rels[:k]`, a negative k leaving off that many at the end.
  ghost predicate InTop(n: nat, k: Option<int>, i: int) {
    0 <= i < n && match k
                  case None => true
                  case Some(x) => if x >= 0 then i < x else i < n + x
  }

  lemma TopIsKept(n: nat, k: Option<int>, top: nat)
    requires top <= n && forall i :: 0 <= i < top <==> InTop(n, k, i)
    ensures TopLength(n, k) == top
  {
    if k.Some? {
      TakenPositions(n, k.value, top);
      TakenPositions(n, k.value, top - 1);
    }
    assert !InTop(n, k, top) && (top > 0 ==> InTop(n, k, top - 1));
  }
}
