/** Ranked mutation kills, and the audit that authenticates and scores a published ranking. */
module AuditRanking {
  import opened Options
  import opened Ranking

  // Ranked kills ------------------------------------------------------------------------

  // `(not caught, position)` of i sorts before that of j.
  predicate RanksBefore(caught: seq<bool>, i: nat, j: nat) {
    && i < |caught|
    && j < |caught|
    && (if caught[i] != caught[j] then caught[i] else i < j)
  }

  function InsertPosition(caught: seq<bool>, i: nat, s: seq<nat>): (r: seq<nat>)
    ensures |r| == |s| + 1
    ensures forall p :: p in r <==> p == i || p in s
  {
    if s == [] || RanksBefore(caught, s[|s| - 1], i) then s + [i]
    else InsertPosition(caught, i, s[..|s| - 1]) + [s[|s| - 1]]
  }

  // The positions below n, sorted by that key.
  function RankedPositions(caught: seq<bool>, n: nat): (r: seq<nat>)
    ensures |r| == n
    ensures forall p :: p in r <==> 0 <= p < n
  {
    if n == 0 then [] else InsertPosition(caught, n - 1, RankedPositions(caught, n - 1))
  }

  ghost predicate Ranked(caught: seq<bool>, s: seq<nat>) {
    forall a, b :: 0 <= a < b < |s| ==> RanksBefore(caught, s[a], s[b])
  }

  lemma AppendKeepsRanked(caught: seq<bool>, s: seq<nat>, i: nat)
    requires Ranked(caught, s)
    requires forall p :: p in s ==> RanksBefore(caught, p, i)
    ensures Ranked(caught, s + [i])
  {
    hide RanksBefore;
    forall a, b | 0 <= a < b < |s + [i]| ensures RanksBefore(caught, (s + [i])[a], (s + [i])[b]) {
      if b == |s| { assert s[a] in s; }
    }
  }

  lemma BeforeLast(caught: seq<bool>, s: seq<nat>, p: nat)
    requires Ranked(caught, s) && s != [] && p in s
    ensures p == s[|s| - 1] || RanksBefore(caught, p, s[|s| - 1])
  {
    hide RanksBefore;
    var a :| 0 <= a < |s| && s[a] == p;
  }

  lemma {:induction false} InsertKeepsRanked(caught: seq<bool>, i: nat, s: seq<nat>)
    requires i < |caught| && Ranked(caught, s)
    requires forall p :: p in s ==> p < |caught| && p != i
    ensures Ranked(caught, InsertPosition(caught, i, s))
  {
    if s != [] {
      var front, last := s[..|s| - 1], s[|s| - 1];
      assert last in s;
      if RanksBefore(caught, last, i) {
        forall p | p in s ensures RanksBefore(caught, p, i) { BeforeLast(caught, s, p); }
        AppendKeepsRanked(caught, s, i);
      } else {
        assert forall p :: p in front ==> p in s;
        InsertKeepsRanked(caught, i, front);
        forall p | p in InsertPosition(caught, i, front) ensures RanksBefore(caught, p, last) {
          if p != i {
            var a :| 0 <= a < |front| && front[a] == p;
            assert s[a] == p;
          }
        }
        AppendKeepsRanked(caught, InsertPosition(caught, i, front), last);
      }
    }
  }

  // Kills first, ties by position: with every position below n listed, this pins the
  // order down.
  lemma {:induction false} RankedPositionsAreRanked(caught: seq<bool>, n: nat)
    requires n <= |caught|
    ensures Ranked(caught, RankedPositions(caught, n))
  {
    if n > 0 {
      hide RanksBefore;
      RankedPositionsAreRanked(caught, n - 1);
      InsertKeepsRanked(caught, n - 1, RankedPositions(caught, n - 1));
    }
  }

  datatype RankedKill = RankedKill(rank: nat, position: nat, relevance: nat)

  function Relevance(caught: bool): nat {
    if caught then 1 else 0
  }

  function RankedKills(caught: seq<bool>): (view: seq<RankedKill>)
    ensures |view| == |caught|
  {
    var order := RankedPositions(caught, |caught|);
    seq(|caught|, a requires 0 <= a < |caught| =>
      assert order[a] in order;
      RankedKill(a + 1, order[a], Relevance(caught[order[a]])))
  }

  function Graded(relevances: seq<nat>): (grades: seq<real>)
    ensures |grades| == |relevances|
  {
    seq(|relevances|, a requires 0 <= a < |relevances| => relevances[a] as real)
  }

  function ViewRelevances(view: seq<RankedKill>): seq<nat> {
    seq(|view|, a requires 0 <= a < |view| => view[a].relevance)
  }

  lemma ViewFollowsOrder(caught: seq<bool>)
    ensures var view, order := RankedKills(caught), RankedPositions(caught, |caught|);
      && (forall a :: 0 <= a < |view| ==> view[a].position == order[a] && order[a] < |caught|)
      && (forall a :: 0 <= a < |view| ==> view[a].relevance == Relevance(caught[view[a].position]))
      && (forall a :: 0 <= a < |view| ==> view[a].rank == a + 1)
  {
    hide RankedPositions, Relevance;
    var order := RankedPositions(caught, |caught|);
    assert forall a :: 0 <= a < |order| ==> order[a] in order;
  }

  predicate Lists(view: seq<RankedKill>, p: nat) {
    exists a :: 0 <= a < |view| && view[a].position == p
  }

  // The canonical view lists every row once with its measured kill status, kills first,
  // equal statuses in canonical order.
  lemma RankedKillsAreStable(caught: seq<bool>)
    ensures var view := RankedKills(caught);
      && (forall p :: 0 <= p < |caught| ==> Lists(view, p))
      && (forall a, b :: 0 <= a < b < |view| ==> view[a].relevance >= view[b].relevance)
      && (forall a, b :: 0 <= a < b < |view| && view[a].relevance == view[b].relevance ==>
          view[a].position < view[b].position)
  {
    hide RankedPositions, RankedKills;
    var view, order := RankedKills(caught), RankedPositions(caught, |caught|);
    ViewFollowsOrder(caught);
    RankedPositionsAreRanked(caught, |caught|);
    forall p | 0 <= p < |caught| ensures Lists(view, p) {
      assert p in order;
      var a :| 0 <= a < |order| && order[a] == p;
      assert view[a].position == p;
    }
    forall a, b | 0 <= a < b < |view| ensures RanksBefore(caught, view[a].position, view[b].position) {
      assert RanksBefore(caught, order[a], order[b]);
    }
  }

  // Scored in its own order the view is ideal: 1 whenever some row was caught, undefined
  // otherwise.
  lemma RankedKillsScoreOne(d: Discount, caught: seq<bool>)
    requires Discounting(d)
    ensures Ndcg(d, Graded(ViewRelevances(RankedKills(caught))), None) == if true in caught then Some(1.0) else None
  {
    hide RankedKills, Ndcg;
    var view := RankedKills(caught);
    var rels := Graded(ViewRelevances(view));
    ViewFollowsOrder(caught);
    RankedKillsAreStable(caught);
    assert forall a :: 0 <= a < |rels| ==> rels[a] == view[a].relevance as real;
    UntruncatedNdcg(d, rels);
    if true in caught {
      var p :| 0 <= p < |caught| && caught[p];
      assert Lists(view, p);
      var a :| 0 <= a < |view| && view[a].position == p;
      assert rels[a] == 1.0;
    }
  }

  // The audit ------------------------------------------------------------------------------

  // A report row as the audit reads it: `id` is missing for a non-dict row, `caught`
  // unless it is a bool.
  datatype Row = Row(id: Option<string>, caught: Option<bool>)

  datatype Reason =
    | NoRows
    | CountMismatch
    | MissingId(row: nat)
    | IdMismatch(row: nat)
    | NoCaughtStatus(row: nat)
    | NotAPermutation
    | NothingKilled

  datatype Audit =
    | Refused(reason: Reason, n: nat)
    | Scored(ndcg: real, orderSensitive: bool, n: nat)

  // The row names itself by the derived id and says whether its mutant was caught.
  predicate Authentic(r: Row, derived: string) {
    r.id == Some(derived) && derived != "" && r.caught.Some?
  }

  predicate AllAuthentic(rows: seq<Row>, derived: seq<string>) {
    |rows| == |derived| && forall k :: 0 <= k < |rows| ==> Authentic(rows[k], derived[k])
  }

  // `reason` is what the check of row k gives, in the order the source asks.
  predicate RowRefusal(r: Row, derived: string, k: nat, reason: Reason) {
    if r.id == None || r.id == Some("") then reason == MissingId(k)
    else if r.id != Some(derived) then reason == IdMismatch(k)
    else r.caught == None && reason == NoCaughtStatus(k)
  }

  // `{row["mutation_id"]: row["caught"] for row in rows}`: the last row of an id wins.
  function CaughtById(rows: seq<Row>, derived: seq<string>): (m: map<string, bool>)
    requires AllAuthentic(rows, derived)
    ensures forall id :: id in m <==> id in derived
  {
    if rows == [] then map[]
    else
      var last := |rows| - 1;
      assert derived == derived[..last] + [derived[last]];
      CaughtById(rows[..last], derived[..last])[derived[last] := rows[last].caught.value]
  }

  lemma NextRow(rows: seq<Row>, derived: seq<string>, k: nat)
    requires |rows| == |derived| && k < |rows|
    requires AllAuthentic(rows[..k], derived[..k]) && Authentic(rows[k], derived[k])
    ensures AllAuthentic(rows[..k + 1], derived[..k + 1])
    ensures CaughtById(rows[..k + 1], derived[..k + 1]) ==
      CaughtById(rows[..k], derived[..k])[derived[k] := rows[k].caught.value]
  {
    assert rows[..k + 1][..k] == rows[..k] && derived[..k + 1][..k] == derived[..k];
    assert rows[..k + 1][k] == rows[k] && derived[..k + 1][k] == derived[k];
  }

  function Relevances(caught: map<string, bool>, published: seq<string>): (rels: seq<nat>)
    requires forall id :: id in published ==> id in caught
    ensures |rels| == |published| && forall a :: 0 <= a < |rels| ==> rels[a] <= 1
  {
    seq(|published|, a requires 0 <= a < |published| =>
      assert published[a] in published;
      Relevance(caught[published[a]]))
  }

  // Positional authentication, the permutation check, and the score.
  method VerifyAuditRanking(d: Discount, rows: seq<Row>, derived: seq<string>, published: Option<seq<string>>)
      returns (audit: Audit)
    requires Discounting(d)
    ensures audit.n == |rows|
    ensures rows == [] <==> audit == Refused(NoRows, 0)
    ensures rows != [] ==> (|rows| != |derived| <==> audit == Refused(CountMismatch, |rows|))
    ensures rows != [] && |rows| == |derived| && !AllAuthentic(rows, derived) ==>
      exists k :: 0 <= k < |rows| && audit.Refused? && RowRefusal(rows[k], derived[k], k, audit.reason) &&
        forall j :: 0 <= j < k ==> Authentic(rows[j], derived[j])
    ensures rows != [] && AllAuthentic(rows, derived) ==>
      audit == ScoreOf(d, rows, derived, if published.Some? then published.value else derived)
  {
    hide CaughtById, Ndcg, Graded, Relevances;
    if rows == [] {
      return Refused(NoRows, 0);
    }
    if |rows| != |derived| {
      return Refused(CountMismatch, |rows|);
    }
    var caught: map<string, bool> := map[];
    for k := 0 to |rows|
      invariant AllAuthentic(rows[..k], derived[..k])
      invariant forall j :: 0 <= j < k ==> Authentic(rows[j], derived[j])
      invariant caught == CaughtById(rows[..k], derived[..k])
    {
      var row := rows[k];
      if row.id.None? || row.id.value == "" {
        return Refused(MissingId(k), |rows|);
      }
      if row.id.value != derived[k] {
        return Refused(IdMismatch(k), |rows|);
      }
      if row.caught.None? {
        return Refused(NoCaughtStatus(k), |rows|);
      }
      NextRow(rows, derived, k);
      caught := caught[derived[k] := row.caught.value];
    }
    assert rows[..|rows|] == rows && derived[..|rows|] == derived;
    var ranking := if published.Some? then published.value else derived;
    if published.Some? && multiset(ranking) != multiset(derived) {
      return Refused(NotAPermutation, |rows|);
    }
    SameMembers(ranking, derived);
    var relevances := Relevances(caught, ranking);
    var value := Ndcg(d, Graded(relevances), None);
    if value.None? {
      return Refused(NothingKilled, |rows|);
    }
    return Scored(value.value, 0 in relevances && 1 in relevances, |rows|);
  }

  lemma SameMembers(a: seq<string>, b: seq<string>)
    requires multiset(a) == multiset(b)
    ensures forall id :: id in a <==> id in b
  {
    forall id ensures id in a <==> id in b {
      assert id in multiset(a) <==> id in multiset(b);
    }
  }

  // What the audit says of authentic rows.
  function ScoreOf(d: Discount, rows: seq<Row>, derived: seq<string>, ranking: seq<string>): Audit
    requires AllAuthentic(rows, derived)
  {
    if multiset(ranking) != multiset(derived) then Refused(NotAPermutation, |rows|)
    else
      SameMembers(ranking, derived);
      var relevances := Relevances(CaughtById(rows, derived), ranking);
      var value := Ndcg(d, Graded(relevances), None);
      if value.None? then Refused(NothingKilled, |rows|)
      else Scored(value.value, 0 in relevances && 1 in relevances, |rows|)
  }

  ghost predicate KillsFirst(relevances: seq<nat>) {
    forall a, b :: 0 <= a < b < |relevances| ==> relevances[a] >= relevances[b]
  }

  lemma GradedNonincreasing(rels: seq<nat>)
    ensures Nonincreasing(Graded(rels)) <==> KillsFirst(rels)
    ensures Nonnegative(Graded(rels))
    ensures (forall i :: 0 <= i < |rels| ==> Graded(rels)[i] == 0.0) <==> (forall i :: 0 <= i < |rels| ==> rels[i] == 0)
  {
    var graded := Graded(rels);
    assert forall i :: 0 <= i < |rels| ==> graded[i] == rels[i] as real;
    forall i, j | 0 <= i < j < |rels| ensures graded[i] >= graded[j] <==> rels[i] >= rels[j] {
    }
  }

  // Binary relevances: the score exists when something was killed, and is 1 exactly when
  // the kills come first.
  lemma BinaryScore(d: Discount, rels: seq<nat>)
    requires Discounting(d) && forall a :: 0 <= a < |rels| ==> rels[a] <= 1
    ensures var score := Ndcg(d, Graded(rels), None);
      && (score.Some? <==> 1 in rels)
      && (score.Some? ==> 0.0 <= score.value <= 1.0)
      && (score.Some? ==> (score.value == 1.0 <==> KillsFirst(rels)))
  {
    hide Ndcg, Graded, Nonincreasing, Nonnegative, Discounting, KillsFirst;
    GradedNonincreasing(rels);
    UntruncatedNdcg(d, Graded(rels));
    NdcgIsProper(d, Graded(rels), None);
    NothingKilledIffAllZero(rels);
  }

  lemma NothingKilledIffAllZero(rels: seq<nat>)
    requires forall a :: 0 <= a < |rels| ==> rels[a] <= 1
    ensures (forall i :: 0 <= i < |rels| ==> rels[i] == 0) <==> 1 !in rels
  {
    forall i | 0 <= i < |rels| ensures rels[i] == 0 || 1 in rels {
      assert rels[i] in rels;
    }
  }

  lemma UniformKillsFirst(rels: seq<nat>)
    requires forall a :: 0 <= a < |rels| ==> rels[a] <= 1
    requires !(0 in rels && 1 in rels)
    ensures KillsFirst(rels)
  {
    forall a, b | 0 <= a < b < |rels| ensures rels[a] >= rels[b] {
      assert rels[a] in rels && rels[b] in rels;
    }
  }

  // A scored audit is a number in [0, 1], 1 exactly when every kill is ranked above every
  // survivor; a permutation is refused exactly when it kills nothing.
  lemma ScoreMeansKillsFirst(d: Discount, rows: seq<Row>, derived: seq<string>, ranking: seq<string>)
    requires Discounting(d) && AllAuthentic(rows, derived) && multiset(ranking) == multiset(derived)
    ensures forall id :: id in ranking ==> id in CaughtById(rows, derived)
    ensures var audit, rels := ScoreOf(d, rows, derived, ranking), Relevances(CaughtById(rows, derived), ranking);
      && (audit.Scored? <==> 1 in rels)
      && (audit.Refused? ==> audit.reason == NothingKilled)
      && (audit.Scored? ==> 0.0 <= audit.ndcg <= 1.0)
      && (audit.Scored? ==> (audit.ndcg == 1.0 <==> KillsFirst(rels)))
      && (audit.Scored? && !audit.orderSensitive ==> audit.ndcg == 1.0)
  {
    hide CaughtById, Ndcg, Graded, Relevances, KillsFirst, Discounting;
    SameMembers(ranking, derived);
    var rels := Relevances(CaughtById(rows, derived), ranking);
    BinaryScore(d, rels);
    if !(0 in rels && 1 in rels) { UniformKillsFirst(rels); }
  }

  // A kill and a survivor in the ranking: moving the survivor to the front costs score.
  function PromoteTo(ranking: seq<string>, k: nat): seq<string>
    requires k < |ranking|
  {
    [ranking[k]] + ranking[..k] + ranking[k + 1..]
  }

  lemma PromoteIsPermutation(ranking: seq<string>, k: nat)
    requires k < |ranking|
    ensures multiset(PromoteTo(ranking, k)) == multiset(ranking)
  {
    assert ranking == ranking[..k] + [ranking[k]] + ranking[k + 1..];
  }

  // `order_sensitive` says exactly whether the score could have failed at all: it is set
  // if and only if some permutation of the same audited ids scores below 1.
  lemma OrderSensitiveIffSomeOrderScoresLess(d: Discount, rows: seq<Row>, derived: seq<string>, ranking: seq<string>)
    requires Discounting(d) && AllAuthentic(rows, derived) && multiset(ranking) == multiset(derived)
    requires ScoreOf(d, rows, derived, ranking).Scored?
    ensures ScoreOf(d, rows, derived, ranking).orderSensitive <==>
      exists other :: multiset(other) == multiset(derived) && ScoreBelowOne(d, rows, derived, other)
  {
    hide CaughtById, Ndcg, Graded;
    SameMembers(ranking, derived);
    var caught := CaughtById(rows, derived);
    var rels := Relevances(caught, ranking);
    if ScoreOf(d, rows, derived, ranking).orderSensitive {
      var k :| 0 <= k < |rels| && rels[k] == 0;
      var other := PromoteTo(ranking, k);
      PromoteIsPermutation(ranking, k);
      SurvivorFirstScoresLess(d, rows, derived, ranking, k);
      assert ScoreBelowOne(d, rows, derived, other);
    }
    forall other | multiset(other) == multiset(derived) && ScoreBelowOne(d, rows, derived, other)
      ensures ScoreOf(d, rows, derived, ranking).orderSensitive
    {
      ScoreMeansKillsFirst(d, rows, derived, other);
      SameRelevances(caught, other, ranking);
    }
  }

  predicate ScoreBelowOne(d: Discount, rows: seq<Row>, derived: seq<string>, ranking: seq<string>)
    requires AllAuthentic(rows, derived)
  {
    var audit := ScoreOf(d, rows, derived, ranking);
    audit.Scored? && audit.ndcg < 1.0
  }

  lemma SurvivorFirstScoresLess(d: Discount, rows: seq<Row>, derived: seq<string>, ranking: seq<string>, k: nat)
    requires Discounting(d) && AllAuthentic(rows, derived) && multiset(ranking) == multiset(derived)
    requires ScoreOf(d, rows, derived, ranking).Scored?
    requires k < |ranking| && ranking[k] in CaughtById(rows, derived) && !CaughtById(rows, derived)[ranking[k]]
    ensures ScoreBelowOne(d, rows, derived, PromoteTo(ranking, k))
  {
    hide ScoreOf;
    var caught := CaughtById(rows, derived);
    var other := PromoteTo(ranking, k);
    PromoteIsPermutation(ranking, k);
    ScoreMeansKillsFirst(d, rows, derived, ranking);
    ScoreMeansKillsFirst(d, rows, derived, other);
    SameRelevances(caught, ranking, other);
    var rels := Relevances(caught, other);
    var a :| 0 <= a < |rels| && rels[a] == 1;
    assert rels[0] == 0 && rels[0] < rels[a];
  }

  lemma SameRelevances(caught: map<string, bool>, a: seq<string>, b: seq<string>)
    requires multiset(a) == multiset(b) && forall id :: id in a ==> id in caught
    ensures forall id :: id in b ==> id in caught
    ensures forall v :: v in Relevances(caught, a) <==> v in Relevances(caught, b)
  {
    SameMembers(a, b);
    RelevancesInclude(caught, a, b);
    RelevancesInclude(caught, b, a);
  }

  lemma RelevancesInclude(caught: map<string, bool>, a: seq<string>, b: seq<string>)
    requires forall id :: id in a ==> id in caught && id in b
    requires forall id :: id in b ==> id in caught
    ensures forall v :: v in Relevances(caught, a) ==> v in Relevances(caught, b)
  {
    forall v | v in Relevances(caught, a) ensures v in Relevances(caught, b) {
      var i :| 0 <= i < |a| && Relevances(caught, a)[i] == v;
      assert a[i] in b;
      var j :| 0 <= j < |b| && b[j] == a[i];
      assert Relevances(caught, b)[j] == v;
    }
  }

  // In plain terms ------------------------------------------------------------------------------

  // Row k is the last of that id.
  ghost predicate LastRowOf(derived: seq<string>, id: string, k: int) {
    0 <= k < |derived| && derived[k] == id && forall j :: k < j < |derived| ==> derived[j] != id
  }

  // The last row of that id was caught.
  ghost predicate Killed(rows: seq<Row>, derived: seq<string>, id: string)
    requires |rows| == |derived|
  {
    exists k :: LastRowOf(derived, id, k) && rows[k].caught == Some(true)
  }

  lemma {:induction false} LastRowDecides(rows: seq<Row>, derived: seq<string>, id: string, k: int)
    requires AllAuthentic(rows, derived) && LastRowOf(derived, id, k)
    ensures id in derived && rows[k].caught == Some(CaughtById(rows, derived)[id])
  {
    var last := |rows| - 1;
    NextRow(rows, derived, last);
    assert rows[..last + 1] == rows && derived[..last + 1] == derived;
    if k < last {
      assert derived[..last][k] == id && rows[..last][k] == rows[k];
      assert LastRowOf(derived[..last], id, k);
      LastRowDecides(rows[..last], derived[..last], id, k);
    }
    hide CaughtById;
  }

  lemma {:induction false} SomeRowIsLast(derived: seq<string>, id: string) returns (k: int)
    requires id in derived
    ensures LastRowOf(derived, id, k)
  {
    var last := |derived| - 1;
    if derived[last] == id {
      k := last;
    } else {
      var j :| 0 <= j < |derived| && derived[j] == id;
      assert derived[..last][j] == id;
      k := SomeRowIsLast(derived[..last], id);
      assert derived[k] == derived[..last][k];
      assert forall i :: k < i < last ==> derived[i] == derived[..last][i];
    }
  }

  lemma CaughtByIdMeaning(rows: seq<Row>, derived: seq<string>, id: string)
    requires AllAuthentic(rows, derived) && id in derived
    ensures CaughtById(rows, derived)[id] <==> Killed(rows, derived, id)
  {
    var k := SomeRowIsLast(derived, id);
    hide CaughtById, AllAuthentic;
    LastRowDecides(rows, derived, id, k);
    assert forall j :: LastRowOf(derived, id, j) ==> j == k;
  }

  // 1 for each killed id in the ranking, 0 for each survivor.
  ghost function Kills(rows: seq<Row>, derived: seq<string>, ranking: seq<string>): (kills: seq<real>)
    requires |rows| == |derived|
    ensures |kills| == |ranking|
  {
    seq(|ranking|, a requires 0 <= a < |ranking| => if Killed(rows, derived, ranking[a]) then 1.0 else 0.0)
  }

  lemma KillIsGraded(kills: seq<real>, rels: seq<nat>)
    requires |kills| == |rels| && forall a :: 0 <= a < |rels| ==> kills[a] == rels[a] as real
    ensures Graded(rels) == kills
    ensures (0 in rels <==> 0.0 in kills) && (1 in rels <==> 1.0 in kills)
  {
    if 0 in rels { var a :| 0 <= a < |rels| && rels[a] == 0; assert kills[a] == 0.0; }
    if 1 in rels { var a :| 0 <= a < |rels| && rels[a] == 1; assert kills[a] == 1.0; }
    if 0.0 in kills { var a :| 0 <= a < |kills| && kills[a] == 0.0; assert rels[a] == 0; }
    if 1.0 in kills { var a :| 0 <= a < |kills| && kills[a] == 1.0; assert rels[a] == 1; }
  }

  lemma GradedAreKills(rows: seq<Row>, derived: seq<string>, ranking: seq<string>)
    requires AllAuthentic(rows, derived)
    requires forall id :: id in ranking ==> id in CaughtById(rows, derived)
    ensures var rels, kills := Relevances(CaughtById(rows, derived), ranking), Kills(rows, derived, ranking);
      && Graded(rels) == kills
      && (0 in rels <==> 0.0 in kills) && (1 in rels <==> 1.0 in kills)
  {
    hide CaughtById, Killed, Graded;
    var rels, kills := Relevances(CaughtById(rows, derived), ranking), Kills(rows, derived, ranking);
    forall a | 0 <= a < |ranking| ensures kills[a] == rels[a] as real {
      assert ranking[a] in ranking;
      CaughtByIdMeaning(rows, derived, ranking[a]);
    }
    KillIsGraded(kills, rels);
  }

  lemma AuditIsNdcg(d: Discount, rows: seq<Row>, derived: seq<string>, ranking: seq<string>)
    requires AllAuthentic(rows, derived) && multiset(ranking) == multiset(derived)
    ensures var audit, kills := ScoreOf(d, rows, derived, ranking), Kills(rows, derived, ranking);
      && audit.n == |rows|
      && (audit.Scored? <==> Ndcg(d, kills, None).Some?)
      && (audit.Scored? ==> audit.ndcg == Ndcg(d, kills, None).value)
      && (audit.Scored? ==> (audit.orderSensitive <==> 0.0 in kills && 1.0 in kills))
      && (audit.Refused? ==> audit.reason == NothingKilled)
  {
    SameMembers(ranking, derived);
    hide CaughtById, Relevances, Kills, Graded, Ndcg;
    GradedAreKills(rows, derived, ranking);
  }

  // The audit of a permutation is the nDCG of its kills: their DCG relative to the best any
  // order of them has, refused when that is zero. It says whether the ranking holds both
  // kills and survivors.
  lemma AuditMeaning(d: Discount, rows: seq<Row>, derived: seq<string>, ranking: seq<string>, best: real)
    requires Discounting(d) && AllAuthentic(rows, derived) && multiset(ranking) == multiset(derived)
    requires BestDcg(d, Kills(rows, derived, ranking), |ranking|, best)
    ensures var audit, kills := ScoreOf(d, rows, derived, ranking), Kills(rows, derived, ranking);
      && (audit == Refused(NothingKilled, |rows|) <==> best == 0.0)
      && (best != 0.0 ==> audit.Scored? && audit.n == |rows|)
      && (best != 0.0 ==> audit.ndcg * best == Dcg(d, kills))
      && (best != 0.0 ==> (audit.orderSensitive <==> 0.0 in kills && 1.0 in kills))
  {
    hide ScoreOf, Kills, Ndcg, Dcg, BestDcg, Discounting;
    var kills := Kills(rows, derived, ranking);
    AuditIsNdcg(d, rows, derived, ranking);
    assert kills[..|ranking|] == kills;
    NdcgMeaning(d, kills, None, |ranking|, best);
  }
}
