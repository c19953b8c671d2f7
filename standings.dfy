/** The league standings table: one row per team with matches played, wins, draws,
    losses, goals scored and conceded, goal difference and points, sorted by points,
    then goal difference, then goals scored, all descending. */
module Standings {
  import opened Common
  import opened Matches
  import opened Ordering
  import TeamComparison

  datatype Row = Row(team: string, played: nat, wins: nat, draws: nat, losses: int,
                     goalsFor: nat, goalsAgainst: nat, goalDifference: int, points: nat)

  function TeamOf(r: Row): string
  {
    r.team
  }

  /** The row of one team. Its home matches are those with the team in the home
      column, its away matches those with the team in the away column; losses are
      what is left of the matches played after wins and draws. */
  function RowFor(ms: seq<Match>, team: string): (r: Row)
    ensures r.team == team
    ensures r.losses >= 0
  {
    var home := OnSide(ms, team, Home);
    var away := OnSide(ms, team, Away);
    OutcomesPartition(home);
    OutcomesPartition(away);
    var played := |home| + |away|;
    var wins := CountHomeWins(home) + CountAwayWins(away);
    var draws := CountDraws(home) + CountDraws(away);
    var gf := SumGoalsOn(home, Home) + SumGoalsOn(away, Away);
    var ga := SumGoalsOn(home, Away) + SumGoalsOn(away, Home);
    Row(team, played, wins, draws, played - wins - draws, gf, ga, gf - ga, wins * 3 + draws)
  }

  /** The rows of a list of teams, in the order of the list. */
  function RowsFor(ms: seq<Match>, teams: seq<string>): (rows: seq<Row>)
    ensures |rows| == |teams|
  {
    if teams == [] then [] else [RowFor(ms, teams[0])] + RowsFor(ms, teams[1..])
  }

  lemma {:induction false} RowsForAt(ms: seq<Match>, teams: seq<string>)
    ensures forall k :: 0 <= k < |teams| ==> RowsFor(ms, teams)[k] == RowFor(ms, teams[k])
  {
    if teams != [] {
      RowsForAt(ms, teams[1..]);
      forall k | 1 <= k < |teams| ensures RowsFor(ms, teams)[k] == RowFor(ms, teams[k]) {
        assert teams[1..][k - 1] == teams[k];
      }
    }
  }

  /** Championship order: more points first, then the larger goal difference, then
      more goals scored. */
  predicate RanksAtLeast(a: Row, b: Row)
  {
    || a.points > b.points
    || (a.points == b.points && a.goalDifference > b.goalDifference)
    || (a.points == b.points && a.goalDifference == b.goalDifference && a.goalsFor >= b.goalsFor)
  }

  lemma RanksAtLeastIsTotalPreorder()
    ensures TotalPreorder(RanksAtLeast)
  {
  }

  /** The table as displayed: the team rows, sorted in championship order. */
  function Table(ms: seq<Match>): seq<Row>
  {
    SortDesc(RowsFor(ms, Teams(ms)), RanksAtLeast)
  }

  /** The page's loop: one row appended per team of the league, then the sort. */
  method BuildStandings(ms: seq<Match>) returns (table: seq<Row>)
    ensures table == Table(ms)
  {
    var teams := Teams(ms);
    var rows: seq<Row> := [];
    var i := 0;
    while i < |teams|
      invariant 0 <= i <= |teams|
      invariant |rows| == i
      invariant forall k :: 0 <= k < i ==> rows[k] == RowFor(ms, teams[k])
    {
      var team := teams[i];
      var home := OnSide(ms, team, Home);
      var away := OnSide(ms, team, Away);
      var played := |home| + |away|;
      var wins := CountHomeWins(home) + CountAwayWins(away);
      var draws := CountDraws(home) + CountDraws(away);
      var losses := played - wins - draws;
      var gf := SumGoalsOn(home, Home) + SumGoalsOn(away, Away);
      var ga := SumGoalsOn(home, Away) + SumGoalsOn(away, Home);
      rows := rows + [Row(team, played, wins, draws, losses, gf, ga, gf - ga, wins * 3 + draws)];
      i := i + 1;
    }
    RowsForAt(ms, teams);
    assert rows == RowsFor(ms, teams);
    table := SortDesc(rows, RanksAtLeast);
  }

  // ---------------------------------------------------------------- the rows

  /** Every row of the table obeys the bookkeeping identities of a standings table. */
  lemma TableRowsConsistent(ms: seq<Match>)
    ensures forall r :: r in Table(ms) ==>
      && r.played == |OnSide(ms, r.team, Home)| + |OnSide(ms, r.team, Away)|
      && r.wins + r.draws + r.losses == r.played
      && r.losses >= 0
      && r.goalDifference == r.goalsFor - r.goalsAgainst
      && r.points == 3 * r.wins + r.draws
  {
    TableRowsAreTeams(ms);
  }

  /** The rows of a team list are exactly the rows computed for its teams. */
  lemma {:induction false} RowsForMembers(ms: seq<Match>, teams: seq<string>)
    ensures forall r :: r in RowsFor(ms, teams) <==> r.team in teams && r == RowFor(ms, r.team)
  {
    if teams != [] {
      RowsForMembers(ms, teams[1..]);
      assert teams == [teams[0]] + teams[1..];
    }
  }

  /** The table has one row per team of the league, with no team twice. */
  lemma TableTeamsDistinct(ms: seq<Match>)
    ensures |Table(ms)| == |Teams(ms)|
    ensures forall i, j :: 0 <= i < j < |Table(ms)| ==> Table(ms)[i].team != Table(ms)[j].team
  {
    var teams := Teams(ms);
    var rows := RowsFor(ms, teams);
    TeamsSpec(ms);
    RowsForAt(ms, teams);
    SortDescPermutes(rows, RanksAtLeast);
    forall i, j | 0 <= i < j < |rows| ensures TeamOf(rows[i]) != TeamOf(rows[j]) {
    }
    SortDescKeepsKeysDistinct(rows, RanksAtLeast, TeamOf);
  }

  /** The rows of the table are exactly the rows computed for the league's teams. */
  lemma TableRowsAreTeams(ms: seq<Match>)
    ensures forall r :: r in Table(ms) <==> r.team in Teams(ms) && r == RowFor(ms, r.team)
  {
    var rows := RowsFor(ms, Teams(ms));
    RowsForMembers(ms, Teams(ms));
    SortDescPermutes(rows, RanksAtLeast);
    forall r ensures r in Table(ms) <==> r in rows {
      assert r in Table(ms) <==> r in multiset(Table(ms));
      assert r in rows <==> r in multiset(rows);
    }
  }

  /** The table is in championship order. */
  lemma TableSorted(ms: seq<Match>)
    ensures SortedBy(Table(ms), RanksAtLeast)
  {
    RanksAtLeastIsTotalPreorder();
    SortDescSorted(RowsFor(ms, Teams(ms)), RanksAtLeast);
  }

  /** Every team that appears in a match, home or away, has a row. */
  lemma EveryTeamHasARow(ms: seq<Match>, m: Match)
    requires m in ms
    ensures RowFor(ms, m.home) in Table(ms)
    ensures RowFor(ms, m.away) in Table(ms)
  {
    TeamsSpec(ms);
    TableRowsAreTeams(ms);
  }

  // ---------------------------------------------------------------- column totals

  function SumPlayed(rows: seq<Row>): int
  {
    if rows == [] then 0 else rows[0].played + SumPlayed(rows[1..])
  }

  function SumGoalsFor(rows: seq<Row>): int
  {
    if rows == [] then 0 else rows[0].goalsFor + SumGoalsFor(rows[1..])
  }

  function SumGoalsAgainst(rows: seq<Row>): int
  {
    if rows == [] then 0 else rows[0].goalsAgainst + SumGoalsAgainst(rows[1..])
  }

  function SumGoalDifference(rows: seq<Row>): int
  {
    if rows == [] then 0 else rows[0].goalDifference + SumGoalDifference(rows[1..])
  }

  /** A column total of the team rows, team by team, in terms of the sides. */
  lemma {:induction false} RowsTotals(ms: seq<Match>, teams: seq<string>)
    ensures SumPlayed(RowsFor(ms, teams))
         == AppearancesOverTeams(ms, teams, Home) + AppearancesOverTeams(ms, teams, Away)
    ensures SumGoalsFor(RowsFor(ms, teams))
         == SideGoalsOverTeams(ms, teams, Home, Home) + SideGoalsOverTeams(ms, teams, Away, Away)
    ensures SumGoalsAgainst(RowsFor(ms, teams))
         == SideGoalsOverTeams(ms, teams, Home, Away) + SideGoalsOverTeams(ms, teams, Away, Home)
    ensures SumGoalDifference(RowsFor(ms, teams))
         == SumGoalsFor(RowsFor(ms, teams)) - SumGoalsAgainst(RowsFor(ms, teams))
  {
    if teams != [] {
      RowsTotals(ms, teams[1..]);
      assert RowsFor(ms, teams)[1..] == RowsFor(ms, teams[1..]);
    }
  }

  lemma {:induction false} InsertKeepsTotals(x: Row, rows: seq<Row>)
    ensures SumPlayed(Insert(x, rows, RanksAtLeast)) == x.played + SumPlayed(rows)
    ensures SumGoalsFor(Insert(x, rows, RanksAtLeast)) == x.goalsFor + SumGoalsFor(rows)
    ensures SumGoalsAgainst(Insert(x, rows, RanksAtLeast)) == x.goalsAgainst + SumGoalsAgainst(rows)
    ensures SumGoalDifference(Insert(x, rows, RanksAtLeast)) == x.goalDifference + SumGoalDifference(rows)
  {
    if rows != [] && !RanksAtLeast(x, rows[0]) {
      InsertKeepsTotals(x, rows[1..]);
      assert Insert(x, rows, RanksAtLeast)[1..] == Insert(x, rows[1..], RanksAtLeast);
    } else if rows != [] {
      assert Insert(x, rows, RanksAtLeast)[1..] == rows;
    }
  }

  /** Sorting does not change any column total. */
  lemma {:induction false} SortKeepsTotals(rows: seq<Row>)
    ensures SumPlayed(SortDesc(rows, RanksAtLeast)) == SumPlayed(rows)
    ensures SumGoalsFor(SortDesc(rows, RanksAtLeast)) == SumGoalsFor(rows)
    ensures SumGoalsAgainst(SortDesc(rows, RanksAtLeast)) == SumGoalsAgainst(rows)
    ensures SumGoalDifference(SortDesc(rows, RanksAtLeast)) == SumGoalDifference(rows)
  {
    if rows != [] {
      SortKeepsTotals(rows[1..]);
      InsertKeepsTotals(rows[0], SortDesc(rows[1..], RanksAtLeast));
    }
  }

  /** Each match credits its goals once to its home team and once to its away team:
      over the whole table goals scored equal goals conceded equal the league's goals,
      the goal differences cancel out, and every match is played twice. */
  lemma TableBalances(ms: seq<Match>)
    ensures SumGoalsFor(Table(ms)) == SumTotalGoals(ms)
    ensures SumGoalsAgainst(Table(ms)) == SumTotalGoals(ms)
    ensures SumGoalDifference(Table(ms)) == 0
    ensures SumPlayed(Table(ms)) == 2 * |ms|
  {
    var teams := Teams(ms);
    TeamsSpec(ms);
    forall m | m in ms ensures TeamOn(m, Home) in teams && TeamOn(m, Away) in teams {
    }
    TeamSumsCoverMatches(ms, teams, Home, Home);
    TeamSumsCoverMatches(ms, teams, Home, Away);
    TeamSumsCoverMatches(ms, teams, Away, Home);
    TeamSumsCoverMatches(ms, teams, Away, Away);
    RowsTotals(ms, teams);
    SortKeepsTotals(RowsFor(ms, teams));
    TotalGoalsSplit(ms);
  }

  // ---------------------------------------------------------------- agreement with the comparison page

  predicate NoSelfMatch(ms: seq<Match>)
  {
    forall m :: m in ms ==> m.home != m.away
  }

  lemma {:induction false} SidesSplitInvolving(ms: seq<Match>, team: string)
    requires NoSelfMatch(ms)
    ensures |Involving(ms, team)| == |OnSide(ms, team, Home)| + |OnSide(ms, team, Away)|
    ensures TeamComparison.SumGoalsFor(Involving(ms, team), team)
         == SumGoalsOn(OnSide(ms, team, Home), Home) + SumGoalsOn(OnSide(ms, team, Away), Away)
    ensures TeamComparison.SumGoalsAgainst(Involving(ms, team), team)
         == SumGoalsOn(OnSide(ms, team, Home), Away) + SumGoalsOn(OnSide(ms, team, Away), Home)
    ensures TeamComparison.CountWins(Involving(ms, team), team)
         == CountHomeWins(OnSide(ms, team, Home)) + CountAwayWins(OnSide(ms, team, Away))
    ensures CountDraws(Involving(ms, team))
         == CountDraws(OnSide(ms, team, Home)) + CountDraws(OnSide(ms, team, Away))
  {
    if ms != [] {
      var m := ms[0];
      assert m in ms;
      assert NoSelfMatch(ms[1..]) by {
        forall x | x in ms[1..] ensures x.home != x.away {
          assert x in ms;
        }
      }
      SidesSplitInvolving(ms[1..], team);
      var g := Involving(ms, team);
      var h := OnSide(ms, team, Home);
      var a := OnSide(ms, team, Away);
      if m.home == team {
        assert g[1..] == Involving(ms[1..], team);
        assert h[1..] == OnSide(ms[1..], team, Home);
      } else if m.away == team {
        assert g[1..] == Involving(ms[1..], team);
        assert a[1..] == OnSide(ms[1..], team, Away);
      }
    }
  }

  /** When no match has one team on both sides, a standings row and the comparison
      page's statistics of that team agree on every shared field. */
  lemma RowAgreesWithStats(ms: seq<Match>, team: string)
    requires NoSelfMatch(ms)
    ensures RowFor(ms, team).played == TeamComparison.Stats(ms, team).played
    ensures RowFor(ms, team).wins == TeamComparison.Stats(ms, team).wins
    ensures RowFor(ms, team).draws == TeamComparison.Stats(ms, team).draws
    ensures RowFor(ms, team).losses == TeamComparison.Stats(ms, team).losses
    ensures RowFor(ms, team).goalsFor == TeamComparison.Stats(ms, team).goalsFor
    ensures RowFor(ms, team).goalsAgainst == TeamComparison.Stats(ms, team).goalsAgainst
  {
    SidesSplitInvolving(ms, team);
  }
}
