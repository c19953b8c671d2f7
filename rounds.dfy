/** The per-round (stage) part of the league overview page: outcome counts per
    round built by a loop, goal sums and averages per round, the league average
    and the round with the most goals. */
module Rounds {
  import opened Common
  import opened Matches

  /** One entry of the page's `resultados` list. */
  datatype RoundResult = RoundResult(stage: int, homeWins: nat, awayWins: nat, draws: nat)

  /** One row of the page's `gols_por_rodada` table. */
  datatype RoundGoals = RoundGoals(stage: int, homeGoals: nat, awayGoals: nat, totalGoals: nat,
                                   averageGoals: real)

  predicate StrictlyIncreasing(xs: seq<int>)
  {
    forall i, j :: 0 <= i < j < |xs| ==> xs[i] < xs[j]
  }

  /** `s` added to an increasing list, unless it is already there. */
  function InsertStage(s: int, xs: seq<int>): seq<int>
  {
    if xs == [] then [s]
    else if s < xs[0] then [s] + xs
    else if s == xs[0] then xs
    else [xs[0]] + InsertStage(s, xs[1..])
  }

  /** The group keys of `groupby("stage")`: each stage present, once, ascending. */
  function Stages(ms: seq<Match>): seq<int>
  {
    if ms == [] then [] else InsertStage(ms[0].stage, Stages(ms[1..]))
  }

  lemma {:induction false} InsertStageElements(s: int, xs: seq<int>)
    ensures forall x :: x in InsertStage(s, xs) <==> x == s || x in xs
  {
    if xs != [] && s > xs[0] {
      InsertStageElements(s, xs[1..]);
      assert xs == [xs[0]] + xs[1..];
    }
  }

  lemma {:induction false} InsertStageIncreasing(s: int, xs: seq<int>)
    requires StrictlyIncreasing(xs)
    ensures StrictlyIncreasing(InsertStage(s, xs))
  {
    if xs != [] && s > xs[0] {
      InsertStageIncreasing(s, xs[1..]);
      InsertStageElements(s, xs[1..]);
      var r := InsertStage(s, xs);
      var tail := InsertStage(s, xs[1..]);
      assert r == [xs[0]] + tail;
      forall y | y in tail ensures xs[0] < y {
        if y != s {
          var j :| 0 <= j < |xs[1..]| && xs[1..][j] == y;
          assert xs[j + 1] == y;
        }
      }
      forall i, j | 0 <= i < j < |r| ensures r[i] < r[j] {
        if i == 0 {
          assert r[j] in tail;
        } else {
          assert r[i] == tail[i - 1] && r[j] == tail[j - 1];
        }
      }
    }
  }

  /** The stages are ascending without repeats, and a stage is listed exactly
      when some match is played in it. */
  lemma {:induction false} StagesSpec(ms: seq<Match>)
    ensures StrictlyIncreasing(Stages(ms))
    ensures forall s :: s in Stages(ms) <==> InStage(ms, s) != []
  {
    if ms != [] {
      StagesSpec(ms[1..]);
      InsertStageIncreasing(ms[0].stage, Stages(ms[1..]));
      InsertStageElements(ms[0].stage, Stages(ms[1..]));
      forall s ensures s in Stages(ms) <==> InStage(ms, s) != [] {
        if s == ms[0].stage {
          assert InStage(ms, s) != [];
        } else {
          assert InStage(ms, s) == InStage(ms[1..], s);
        }
      }
    }
  }

  /** The outcome counts of one round. */
  function ResultOf(ms: seq<Match>, stage: int): RoundResult
  {
    var g := InStage(ms, stage);
    RoundResult(stage, CountHomeWins(g), CountAwayWins(g), CountDraws(g))
  }

  /** The loop that fills `resultados`, one entry per round in ascending stage order. */
  method RoundResults(ms: seq<Match>) returns (rs: seq<RoundResult>)
    ensures |rs| == |Stages(ms)|
    ensures forall i :: 0 <= i < |rs| ==> rs[i] == ResultOf(ms, Stages(ms)[i])
    ensures forall i, j :: 0 <= i < j < |rs| ==> rs[i].stage < rs[j].stage
    ensures forall i :: 0 <= i < |rs| ==>
      rs[i].homeWins + rs[i].awayWins + rs[i].draws == |InStage(ms, rs[i].stage)| > 0
  {
    var stages := Stages(ms);
    StagesSpec(ms);
    rs := [];
    var i := 0;
    while i < |stages|
      invariant 0 <= i <= |stages|
      invariant |rs| == i
      invariant forall k :: 0 <= k < i ==> rs[k] == ResultOf(ms, stages[k])
    {
      var s := stages[i];
      var group := InStage(ms, s);
      rs := rs + [RoundResult(s, CountHomeWins(group), CountAwayWins(group), CountDraws(group))];
      i := i + 1;
    }
    forall i | 0 <= i < |rs|
      ensures rs[i].homeWins + rs[i].awayWins + rs[i].draws == |InStage(ms, rs[i].stage)| > 0
    {
      ResultOfSpec(ms, stages[i]);
    }
  }

  /** In a round that is played, home wins, away wins and draws add up to its
      number of matches. */
  lemma ResultOfSpec(ms: seq<Match>, stage: int)
    requires stage in Stages(ms)
    ensures ResultOf(ms, stage).stage == stage
    ensures ResultOf(ms, stage).homeWins + ResultOf(ms, stage).awayWins + ResultOf(ms, stage).draws
         == |InStage(ms, stage)| > 0
  {
    StagesSpec(ms);
    OutcomesPartition(InStage(ms, stage));
  }

  /** The goal sums of one non-empty round and its average per match. */
  function GoalsOf(ms: seq<Match>, stage: int): (r: RoundGoals)
    requires InStage(ms, stage) != []
    ensures r.stage == stage
    ensures r.homeGoals == SumGoalsOn(InStage(ms, stage), Home)
    ensures r.awayGoals == SumGoalsOn(InStage(ms, stage), Away)
    ensures r.totalGoals == SumTotalGoals(InStage(ms, stage))
    ensures r.averageGoals * (|InStage(ms, stage)| as real) == r.totalGoals as real
  {
    var g := InStage(ms, stage);
    var h := SumGoalsOn(g, Home);
    var a := SumGoalsOn(g, Away);
    TotalGoalsSplit(g);
    QuotientTimesDivisor((h + a) as real, |g| as real);
    RoundGoals(stage, h, a, h + a, ((h + a) as real) / (|g| as real))
  }

  function GoalsRows(ms: seq<Match>, stages: seq<int>): seq<RoundGoals>
    requires forall s :: s in stages ==> InStage(ms, s) != []
  {
    if stages == [] then [] else [GoalsOf(ms, stages[0])] + GoalsRows(ms, stages[1..])
  }

  /** `gols_por_rodada` with its average column: one row per stage, ascending. */
  function GoalsPerRound(ms: seq<Match>): seq<RoundGoals>
  {
    StagesSpec(ms);
    GoalsRows(ms, Stages(ms))
  }

  lemma {:induction false} GoalsRowsAt(ms: seq<Match>, stages: seq<int>, i: nat)
    requires forall s :: s in stages ==> InStage(ms, s) != []
    requires i < |stages|
    ensures |GoalsRows(ms, stages)| == |stages|
    ensures GoalsRows(ms, stages)[i] == GoalsOf(ms, stages[i])
  {
    if i > 0 {
      GoalsRowsAt(ms, stages[1..], i - 1);
    } else {
      GoalsRowsLength(ms, stages);
    }
  }

  lemma {:induction false} GoalsRowsLength(ms: seq<Match>, stages: seq<int>)
    requires forall s :: s in stages ==> InStage(ms, s) != []
    ensures |GoalsRows(ms, stages)| == |stages|
  {
    if stages != [] {
      GoalsRowsLength(ms, stages[1..]);
    }
  }

  /** Row `i` of the goals table describes the round of stage `i` in ascending
      order, the same stage as entry `i` of the outcome list (both tables are
      keyed by the sorted stages, which is what lets the page divide one column
      by the other position by position). */
  lemma GoalsPerRoundAt(ms: seq<Match>, i: nat)
    requires i < |Stages(ms)|
    ensures |GoalsPerRound(ms)| == |Stages(ms)|
    ensures InStage(ms, Stages(ms)[i]) != []
    ensures GoalsPerRound(ms)[i] == GoalsOf(ms, Stages(ms)[i])
  {
    StagesSpec(ms);
    GoalsRowsAt(ms, Stages(ms), i);
  }

  lemma QuotientTimesDivisor(t: real, n: real)
    requires n != 0.0
    ensures (t / n) * n == t
  {
  }

  /** The league's average goals per match: 0 without matches. */
  function LeagueAverage(ms: seq<Match>): (r: real)
    ensures |ms| == 0 ==> r == 0.0
    ensures |ms| > 0 ==> r * (|ms| as real) == SumTotalGoals(ms) as real
  {
    if |ms| > 0 then (SumTotalGoals(ms) as real) / (|ms| as real) else 0.0
  }

  function SumRoundTotals(rows: seq<RoundGoals>): nat
  {
    if rows == [] then 0 else rows[0].totalGoals + SumRoundTotals(rows[1..])
  }

  /** The per-round totals add up to the league's goal total: the rounds split the
      matches without overlap or omission. */
  lemma RoundTotalsAddUp(ms: seq<Match>)
    ensures SumRoundTotals(GoalsPerRound(ms)) == SumTotalGoals(ms)
  {
    StagesSpec(ms);
    var stages := Stages(ms);
    forall m | m in ms ensures m.stage in stages {
      InStageMembers(ms, m.stage);
      assert m in InStage(ms, m.stage);
    }
    RowsAddUp(ms, stages);
    StagesPartition(ms, stages);
  }

  function SumStageTotals(ms: seq<Match>, stages: seq<int>): nat
  {
    if stages == [] then 0 else SumTotalGoals(InStage(ms, stages[0])) + SumStageTotals(ms, stages[1..])
  }

  lemma {:induction false} RowsAddUp(ms: seq<Match>, stages: seq<int>)
    requires forall s :: s in stages ==> InStage(ms, s) != []
    ensures SumRoundTotals(GoalsRows(ms, stages)) == SumStageTotals(ms, stages)
  {
    if stages != [] {
      RowsAddUp(ms, stages[1..]);
      TotalGoalsSplit(InStage(ms, stages[0]));
    }
  }

  /** Summing every listed stage's matches counts each match once. */
  lemma {:induction false} StagesPartition(ms: seq<Match>, stages: seq<int>)
    requires StrictlyIncreasing(stages)
    requires forall m :: m in ms ==> m.stage in stages
    ensures SumStageTotals(ms, stages) == SumTotalGoals(ms)
  {
    if ms != [] {
      forall m | m in ms[1..] ensures m.stage in stages {
        assert m in ms;
      }
      StagesPartition(ms[1..], stages);
      StageSumsSplit(ms, stages);
      assert ms[0] in ms;
    } else {
      NoMatchesNoStageTotals(stages);
    }
  }

  lemma {:induction false} NoMatchesNoStageTotals(stages: seq<int>)
    ensures SumStageTotals([], stages) == 0
  {
    if stages != [] {
      NoMatchesNoStageTotals(stages[1..]);
    }
  }

  lemma {:induction false} StageSumsSplit(ms: seq<Match>, stages: seq<int>)
    requires ms != []
    requires StrictlyIncreasing(stages)
    ensures SumStageTotals(ms, stages)
         == (if ms[0].stage in stages then TotalGoals(ms[0]) else 0) + SumStageTotals(ms[1..], stages)
  {
    if stages != [] {
      var tail := stages[1..];
      assert StrictlyIncreasing(tail) by {
        forall i, j | 0 <= i < j < |tail| ensures tail[i] < tail[j] {
          assert tail[i] == stages[i + 1] && tail[j] == stages[j + 1];
        }
      }
      StageSumsSplit(ms, tail);
      StageTotalCons(ms, stages[0]);
      if ms[0].stage == stages[0] {
        assert ms[0].stage !in tail by {
          forall k | 0 <= k < |tail| ensures tail[k] != stages[0] {
            assert tail[k] == stages[k + 1];
          }
        }
      }
      assert ms[0].stage in stages <==> ms[0].stage == stages[0] || ms[0].stage in tail;
    }
  }

  lemma StageTotalCons(ms: seq<Match>, stage: int)
    requires ms != []
    ensures SumTotalGoals(InStage(ms, stage))
         == (if ms[0].stage == stage then TotalGoals(ms[0]) else 0) + SumTotalGoals(InStage(ms[1..], stage))
  {
    if ms[0].stage == stage {
      assert ([ms[0]] + InStage(ms[1..], stage))[1..] == InStage(ms[1..], stage);
    }
  }

  /** The first row's position among those with the largest total (pandas `idxmax`). */
  function FirstMaxIndex(rows: seq<RoundGoals>): (k: nat)
    requires rows != []
    ensures k < |rows|
    ensures forall i :: 0 <= i < |rows| ==> rows[i].totalGoals <= rows[k].totalGoals
    ensures forall i :: 0 <= i < k ==> rows[i].totalGoals < rows[k].totalGoals
  {
    if |rows| == 1 then 0
    else
      var j := 1 + FirstMaxIndex(rows[1..]);
      if rows[0].totalGoals >= rows[j].totalGoals then 0 else j
  }

  /** The round with the most goals: the first stage reaching the largest total,
      or none when there are no rounds. */
  function MostGoalsRound(rows: seq<RoundGoals>): (r: Option<int>)
    ensures r.None? <==> rows == []
    ensures r.Some? ==>
      exists k :: (0 <= k < |rows| && rows[k].stage == r.value &&
        (forall i :: 0 <= i < |rows| ==> rows[i].totalGoals <= rows[k].totalGoals) &&
        (forall i :: 0 <= i < k ==> rows[i].totalGoals < rows[k].totalGoals))
  {
    if rows == [] then None else Some(rows[FirstMaxIndex(rows)].stage)
  }
}
