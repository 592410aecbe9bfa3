/**
 How one expected tool call scores against one observed call: names, argument
 matchers, and the recursive credit over nested argument dicts.
 */
module ToolCalls {
  import opened Options

  // JSON-shaped argument values; `Leaf` stands for every scalar.
  datatype Value =
    | Leaf(id: int)
    | List(items: seq<Value>)
    | Dict(entries: map<string, Value>)

  // An expected argument: a literal, or a matcher, which is a condition on the observed
  // value, None when the key did not arrive.
  datatype Expected = Literal(value: Value) | Matcher(holds: Option<Value> -> bool)

  // `None`, `_UNPARSEABLE`, or a readable dict.
  datatype Arguments = NoArguments | Unparseable | Parsed(entries: map<string, Value>)

  datatype Call<Args> = Call(name: string, args: Args)

  type ExpectedCall = Call<Option<map<string, Expected>>>

  type ObservedCall = Call<Arguments>

  // Sums over a map's values, in any order --------------------------------------

  ghost function Sum(m: map<string, real>): real {
    if m == map[] then 0.0
    else
      var k :| k in m;
      m[k] + Sum(m - {k})
  }

  lemma NothingToSum()
    ensures Sum(map[]) == 0.0
  {
  }

  // The order of summation does not matter.
  lemma {:induction false} SumTakes(m: map<string, real>, k: string)
    requires k in m
    ensures Sum(m) == m[k] + Sum(m - {k})
    decreases |m|
  {
    var j :| j in m && Sum(m) == m[j] + Sum(m - {j});
    if j != k {
      SumTakes(m - {j}, k);
      SumTakes(m - {k}, j);
      assert m - {j} - {k} == m - {k} - {j};
    }
  }

  lemma {:induction false} SumOfUnitValues(m: map<string, real>)
    requires forall k :: k in m ==> 0.0 <= m[k] <= 1.0
    ensures 0.0 <= Sum(m) <= |m| as real
    ensures Sum(m) == |m| as real <==> forall k :: k in m ==> m[k] == 1.0
    decreases |m|
  {
    if m != map[] {
      var k :| k in m && Sum(m) == m[k] + Sum(m - {k});
      SumOfUnitValues(m - {k});
      assert m == (m - {k})[k := m[k]];
    }
  }

  // Argument credit ---------------------------------------------------------------

  // `_arg_credit` over two dicts: the overlap of their keys, weighted by how far the
  // shared values agree, relative to all their keys.
  ghost function Credit(exp: Value, got: Value): real
    requires exp.Dict? && got.Dict?
    decreases exp, 1
  {
    if exp == got then 1.0
    else
      Sum(KeyCredits(exp, got)) / |exp.entries.Keys + got.entries.Keys| as real
  }

  ghost function KeyCredits(exp: Value, got: Value): (m: map<string, real>)
    requires exp.Dict? && got.Dict? && exp != got
    ensures m.Keys == exp.entries.Keys * got.entries.Keys
    decreases exp, 0
  {
    map k | k in exp.entries && k in got.entries :: KeyCredit(exp.entries[k], got.entries[k])
  }

  ghost function KeyCredit(exp: Value, got: Value): real
    decreases exp, 2
  {
    if exp == got then 1.0
    else if exp.Dict? && got.Dict? then Credit(exp, got)
    else 0.0
  }

  lemma SubsetOfFullSize(s: set<string>, t: set<string>)
    requires s <= t
    ensures |s| <= |t| && (|s| == |t| ==> s == t)
  {
    if s == t {
    } else {
      var x :| x in t && x !in s;
      SubsetOfFullSize(s, t - {x});
    }
  }

  // Credit is a proper score: it lies in [0, 1] and is full only for equal dicts.
  lemma {:induction false} CreditIsProper(exp: Value, got: Value)
    requires exp.Dict? && got.Dict?
    ensures 0.0 <= Credit(exp, got) <= 1.0
    ensures Credit(exp, got) == 1.0 <==> exp == got
    decreases exp
  {
    if exp != got {
      var m := KeyCredits(exp, got);
      var common, total := exp.entries.Keys * got.entries.Keys, exp.entries.Keys + got.entries.Keys;
      forall k | k in m ensures 0.0 <= m[k] <= 1.0 && (m[k] == 1.0 ==> exp.entries[k] == got.entries[k]) {
        assert m[k] == KeyCredit(exp.entries[k], got.entries[k]);
        if exp.entries[k].Dict? && got.entries[k].Dict? {
          CreditIsProper(exp.entries[k], got.entries[k]);
        }
      }
      SumOfUnitValues(m);
      SubsetOfFullSize(common, total);
      assert |m| == |common|;
      if total == {} { KeylessDictsAreEqual(exp, got); }
      CreditBelowOne(exp, got, Sum(m), |total|);
    }
  }

  lemma CreditBelowOne(exp: Value, got: Value, sum: real, n: nat)
    requires exp.Dict? && got.Dict? && exp != got && n > 0
    requires n == |exp.entries.Keys + got.entries.Keys|
    requires 0.0 <= sum <= |exp.entries.Keys * got.entries.Keys| as real
    requires sum == |exp.entries.Keys * got.entries.Keys| as real ==>
      forall k :: k in exp.entries && k in got.entries ==> exp.entries[k] == got.entries[k]
    ensures 0.0 <= sum / n as real < 1.0
  {
    var common, total := exp.entries.Keys * got.entries.Keys, exp.entries.Keys + got.entries.Keys;
    SubsetOfFullSize(common, total);
    if sum == n as real { AgreeingDictsAreEqual(exp, got); }
    QuotientBelowOne(sum, n as real);
  }

  lemma KeylessDictsAreEqual(exp: Value, got: Value)
    requires exp.Dict? && got.Dict? && exp.entries.Keys + got.entries.Keys == {}
    ensures exp == got
  {
    assert exp.entries.Keys == {} && got.entries.Keys == {};
    assert exp.entries == got.entries;
  }

  lemma AgreeingDictsAreEqual(exp: Value, got: Value)
    requires exp.Dict? && got.Dict?
    requires exp.entries.Keys * got.entries.Keys == exp.entries.Keys + got.entries.Keys
    requires forall k :: k in exp.entries && k in got.entries ==> exp.entries[k] == got.entries[k]
    ensures exp == got
  {
    assert exp.entries.Keys == got.entries.Keys by {
      forall k ensures k in exp.entries <==> k in got.entries {
        assert k in exp.entries.Keys * got.entries.Keys <==> k in exp.entries.Keys + got.entries.Keys;
      }
    }
    assert exp.entries == got.entries;
  }

  lemma QuotientBelowOne(x: real, n: real)
    requires 0.0 <= x < n
    ensures 0.0 <= x / n < 1.0
  {
  }

  lemma QuotientOfSum(x: real, y: real, n: real)
    requires n > 0.0
    ensures (x + y) / n == x / n + y / n
  {
  }

  // One turn of the accumulating loop: `key` moves from `todo` into the sum.
  lemma AddKey(credits: map<string, real>, todo: set<string>, key: string, n: real)
    requires key in todo && key in credits && n > 0.0
    ensures Sum(credits - (todo - {key})) / n == Sum(credits - todo) / n + credits[key] / n
  {
    SumTakes(credits - (todo - {key}), key);
    assert credits - (todo - {key}) - {key} == credits - todo;
    QuotientOfSum(Sum(credits - todo), credits[key], n);
  }

  // The recursive accumulation the source performs.
  method DictCredit(exp: Value, got: Value) returns (score: real)
    requires exp.Dict? && got.Dict?
    ensures score == Credit(exp, got)
    decreases exp
  {
    if exp == got { return 1.0; }
    var total := exp.entries.Keys + got.entries.Keys;
    if total == {} { KeylessDictsAreEqual(exp, got); }
    var common := exp.entries.Keys * got.entries.Keys;
    score := SumCredits(exp, got, common, |total|);
  }

  // The loop over the shared keys.
  method SumCredits(exp: Value, got: Value, common: set<string>, size: nat) returns (score: real)
    requires exp.Dict? && got.Dict? && exp != got && size > 0
    requires common == exp.entries.Keys * got.entries.Keys
    ensures score == Sum(KeyCredits(exp, got)) / size as real
    decreases exp, 0
  {
    hide Sum, Credit;
    ghost var credits := KeyCredits(exp, got);
    NothingToSum();
    var todo := common;
    score := 0.0;
    assert credits - todo == map[];
    while todo != {}
      invariant todo <= common
      invariant score == Sum(credits - todo) / size as real
      decreases todo
    {
      var key :| key in todo;
      AddKey(credits, todo, key, size as real);
      var a, b := exp.entries[key], got.entries[key];
      assert credits[key] == KeyCredit(a, b);
      if a == b {
        score := score + 1.0 / size as real;
      } else if a.Dict? && b.Dict? {
        var inner := DictCredit(a, b);
        score := score + inner / size as real;
      }
      todo := todo - {key};
    }
    assert credits - {} == credits;
  }

  // Pair scores -------------------------------------------------------------------

  predicate HasMatchers(exp: map<string, Expected>) {
    exists k :: k in exp && exp[k].Matcher?
  }

  // `_matcher_args_pass`: unreadable arguments fail, absent ones count as empty.
  predicate MatcherArgsPass(exp: map<string, Expected>, got: Arguments) {
    !got.Unparseable? &&
    var seen: map<string, Value> := if got.Parsed? then got.entries else map[];
    forall k :: k in exp ==>
      match exp[k]
      case Matcher(holds) => holds(if k in seen then Some(seen[k]) else None)
      case Literal(v) => k in seen && seen[k] == v
  }

  function Literals(exp: map<string, Expected>): map<string, Value>
    requires !HasMatchers(exp)
  {
    map k | k in exp && exp[k].Literal? :: exp[k].value
  }

  // `_arg_credit`.
  ghost function ArgCredit(exp: map<string, Value>, got: Arguments, exact: bool): real {
    if !got.Parsed? then 0.0
    else if exp == got.entries then 1.0
    else if exact then 0.0
    else Credit(Dict(exp), Dict(got.entries))
  }

  // `_pair_score`.
  ghost function PairScore(exp: ExpectedCall, got: ObservedCall, withArgs: bool, exact: bool): real {
    if exp.name != got.name then 0.0
    else if !withArgs || exp.args.None? then 1.0
    else if HasMatchers(exp.args.value) then
      if MatcherArgsPass(exp.args.value, got.args) then 1.0 else 0.0
    else ArgCredit(Literals(exp.args.value), got.args, exact)
  }

  method ScorePair(exp: ExpectedCall, got: ObservedCall, withArgs: bool, exact: bool) returns (score: real)
    ensures score == PairScore(exp, got, withArgs, exact)
  {
    if exp.name != got.name { return 0.0; }
    if !withArgs || exp.args.None? { return 1.0; }
    if HasMatchers(exp.args.value) {
      return if MatcherArgsPass(exp.args.value, got.args) then 1.0 else 0.0;
    }
    var literals := Literals(exp.args.value);
    if !got.args.Parsed? { return 0.0; }
    if literals == got.args.entries { return 1.0; }
    if exact { return 0.0; }
    score := DictCredit(Dict(literals), Dict(got.args.entries));
  }

  // Every pair score is proper, and full under `exact` exactly when it is full without.
  lemma PairScoreIsProper(exp: ExpectedCall, got: ObservedCall, withArgs: bool, exact: bool)
    ensures 0.0 <= PairScore(exp, got, withArgs, exact) <= 1.0
    ensures PairScore(exp, got, withArgs, exact) == 1.0 <==> PairScore(exp, got, withArgs, !exact) == 1.0
    ensures exact ==> PairScore(exp, got, withArgs, exact) <= PairScore(exp, got, withArgs, false)
  {
    if exp.args.Some? && !HasMatchers(exp.args.value) && got.args.Parsed? {
      CreditIsProper(Dict(Literals(exp.args.value)), Dict(got.args.entries));
    }
  }

  // Arguments that arrived but could not be read earn nothing, matchers or not.
  lemma UnparseableEarnsNothing(exp: ExpectedCall, got: ObservedCall, exact: bool)
    requires exp.args.Some? && got.args.Unparseable?
    ensures PairScore(exp, got, true, exact) == 0.0
  {
  }

  // Scores in plain terms -----------------------------------------------------------------------

  // What arrived under a key: nothing for absent arguments or a missing key.
  function Arrived(got: Arguments, k: string): Option<Value> {
    if got.Parsed? && k in got.entries then Some(got.entries[k]) else None
  }

  lemma NamesDecideAlone(exp: ExpectedCall, got: ObservedCall, withArgs: bool, exact: bool)
    requires exp.name != got.name || !withArgs || exp.args.None?
    ensures PairScore(exp, got, withArgs, exact) == if exp.name == got.name then 1.0 else 0.0
  {
  }

  // With a matcher among the arguments it is all or nothing: every matcher has to hold of
  // what arrived under its key, every literal has to have arrived.
  lemma MatcherScore(exp: ExpectedCall, got: ObservedCall, exact: bool)
    requires exp.name == got.name && exp.args.Some?
    requires exists k :: k in exp.args.value && exp.args.value[k].Matcher?
    ensures PairScore(exp, got, true, exact) ==
      if !got.args.Unparseable? && forall k :: k in exp.args.value ==>
           (exp.args.value[k].Matcher? ==> exp.args.value[k].holds(Arrived(got.args, k)))
           && (exp.args.value[k].Literal? ==> Arrived(got.args, k) == Some(exp.args.value[k].value))
      then 1.0 else 0.0
  {
  }

  // The observed arguments are the expected literals, key for key.
  ghost predicate SameArguments(exp: map<string, Expected>, got: map<string, Value>) {
    exp.Keys == got.Keys && forall k :: k in exp && k in got ==> exp[k] == Literal(got[k])
  }

  // With literals alone, readable arguments score full exactly when they are the expected
  // ones; otherwise nothing under exact comparison, the dict credit under partial.
  lemma LiteralScore(exp: ExpectedCall, got: ObservedCall, exact: bool)
    requires exp.name == got.name && exp.args.Some? && forall k :: k in exp.args.value ==> exp.args.value[k].Literal?
    ensures var score := PairScore(exp, got, true, exact);
      && (!got.args.Parsed? ==> score == 0.0)
      && (got.args.Parsed? ==> (score == 1.0 <==> SameArguments(exp.args.value, got.args.entries)))
      && (score != 1.0 && exact ==> score == 0.0)
      && (got.args.Parsed? && !exact ==>
          score == Credit(Dict(map k | k in exp.args.value :: exp.args.value[k].value), Dict(got.args.entries)))
  {
    var literals := Literals(exp.args.value);
    assert literals == map k | k in exp.args.value :: exp.args.value[k].value;
    if got.args.Parsed? {
      SameLiterals(exp.args.value, got.args.entries);
      CreditIsProper(Dict(literals), Dict(got.args.entries));
    }
    hide Credit;
  }

  lemma SameLiterals(exp: map<string, Expected>, got: map<string, Value>)
    requires !HasMatchers(exp)
    ensures Literals(exp) == got <==> SameArguments(exp, got)
  {
    var literals := Literals(exp);
    assert literals.Keys == exp.Keys;
    if SameArguments(exp, got) {
      assert literals.Keys == got.Keys;
      assert literals == got;
    }
  }

  // The credit of two dicts times the number of their keys: what their keys add up to.
  ghost function Points(exp: map<string, Value>, got: map<string, Value>): real {
    Times(Credit(Dict(exp), Dict(got)), |exp.Keys + got.Keys| as real)
  }

  function Times(x: real, y: real): real {
    x * y
  }

  // The points a shared key brings.
  ghost function PointsOf(exp: Value, got: Value): real {
    if exp.Dict? && got.Dict? then Credit(exp, got) else if exp == got then 1.0 else 0.0
  }

  ghost function SharedPoints(exp: map<string, Value>, got: map<string, Value>): (m: map<string, real>)
    ensures m.Keys == exp.Keys * got.Keys
  {
    map k | k in exp && k in got :: PointsOf(exp[k], got[k])
  }

  lemma PointsAreKeyCredits(exp: map<string, Value>, got: map<string, Value>)
    requires exp != got
    ensures Dict(exp) != Dict(got) && KeyCredits(Dict(exp), Dict(got)) == SharedPoints(exp, got)
  {
    assert Dict(exp).entries == exp && Dict(got).entries == got;
    var m, n := KeyCredits(Dict(exp), Dict(got)), SharedPoints(exp, got);
    forall k | k in m ensures m[k] == n[k] {
      assert m[k] == KeyCredit(exp[k], got[k]);
    }
  }

  lemma EqualDictsScoreAllKeys(exp: map<string, Value>)
    ensures Sum(SharedPoints(exp, exp)) == |exp.Keys| as real
  {
    var m := SharedPoints(exp, exp);
    assert m.Keys == exp.Keys;
    hide Sum;
    SumOfUnitValues(m);
  }

  lemma MeanTimes(mean: real, x: real, n: real)
    requires n > 0.0 && mean == x / n
    ensures Times(mean, n) == x
  {
  }

  lemma CreditIsMean(exp: map<string, Value>, got: map<string, Value>)
    requires exp != got
    ensures |exp.Keys + got.Keys| > 0
    ensures Credit(Dict(exp), Dict(got)) == Sum(SharedPoints(exp, got)) / |exp.Keys + got.Keys| as real
  {
    PointsAreKeyCredits(exp, got);
    if exp.Keys + got.Keys == {} { KeylessDictsAreEqual(Dict(exp), Dict(got)); }
    hide Sum, KeyCredits, SharedPoints;
  }

  lemma PointsAreSums(exp: map<string, Value>, got: map<string, Value>)
    ensures Points(exp, got) == Sum(SharedPoints(exp, got))
  {
    hide Sum, SharedPoints;
    if exp == got {
      EqualDictsScoreAllKeys(exp);
      assert exp.Keys + got.Keys == exp.Keys;
    } else {
      hide Credit, Times;
      CreditIsMean(exp, got);
      MeanTimes(Credit(Dict(exp), Dict(got)), Sum(SharedPoints(exp, got)), |exp.Keys + got.Keys| as real);
    }
  }

  // Credit goes key by key: each shared key adds its own credit, full for equal values, that
  // of the two dicts for nested ones, none otherwise; a key on one side only adds nothing.
  lemma CreditByKeys(exp: map<string, Value>, got: map<string, Value>, k: string)
    ensures Points(map[], map[]) == 0.0
    ensures Points(exp, got) == Points(exp - {k}, got - {k})
      + if k in exp && k in got then PointsOf(exp[k], got[k]) else 0.0
  {
    PointsAreSums(exp, got);
    PointsAreSums(exp - {k}, got - {k});
    PointsAreSums(map[], map[]);
    hide Points, Sum, PointsOf;
    var m := SharedPoints(exp, got);
    assert m - {k} == SharedPoints(exp - {k}, got - {k});
    if k in m { SumTakes(m, k); } else { assert m - {k} == m; }
    NothingToSum();
    assert SharedPoints(map[], map[]) == map[];
  }
}
