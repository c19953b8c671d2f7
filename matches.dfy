/** One row of the match table, already filtered to a league and its selected
    seasons and with team ids resolved to names, plus the row filters and the
    column sums that every page of the dashboard is built from. */
module Matches {
  import opened Common

  datatype Match = Match(home: string, away: string, homeGoals: nat, awayGoals: nat, stage: int)

  /** The home or the away role of a team in a match. */
  datatype Side = Home | Away

  function TeamOn(m: Match, side: Side): string
  {
    if side == Home then m.home else m.away
  }

  function GoalsOn(m: Match, side: Side): nat
  {
    if side == Home then m.homeGoals else m.awayGoals
  }

  function TotalGoals(m: Match): nat
  {
    m.homeGoals + m.awayGoals
  }

  predicate Involves(m: Match, team: string)
  {
    m.home == team || m.away == team
  }

  // ---------------------------------------------------------------- filters

  /** The matches in which `team` is home or away, in table order. */
  function Involving(ms: seq<Match>, team: string): (r: seq<Match>)
    ensures |r| <= |ms|
  {
    if ms == [] then []
    else if Involves(ms[0], team) then [ms[0]] + Involving(ms[1..], team)
    else Involving(ms[1..], team)
  }

  /** The matches in which `team` plays in role `side`, in table order. */
  function OnSide(ms: seq<Match>, team: string, side: Side): (r: seq<Match>)
    ensures |r| <= |ms|
  {
    if ms == [] then []
    else if TeamOn(ms[0], side) == team then [ms[0]] + OnSide(ms[1..], team, side)
    else OnSide(ms[1..], team, side)
  }

  /** The matches of one round (stage), in table order. */
  function InStage(ms: seq<Match>, stage: int): (r: seq<Match>)
    ensures |r| <= |ms|
  {
    if ms == [] then []
    else if ms[0].stage == stage then [ms[0]] + InStage(ms[1..], stage)
    else InStage(ms[1..], stage)
  }

  /** The filters keep exactly the matching rows. */
  lemma {:induction false} InvolvingMembers(ms: seq<Match>, team: string)
    ensures forall m :: m in Involving(ms, team) <==> m in ms && Involves(m, team)
  {
    if ms != [] {
      InvolvingMembers(ms[1..], team);
      assert ms == [ms[0]] + ms[1..];
    }
  }

  lemma {:induction false} OnSideMembers(ms: seq<Match>, team: string, side: Side)
    ensures forall m :: m in OnSide(ms, team, side) <==> m in ms && TeamOn(m, side) == team
  {
    if ms != [] {
      OnSideMembers(ms[1..], team, side);
      assert ms == [ms[0]] + ms[1..];
    }
  }

  lemma {:induction false} InStageMembers(ms: seq<Match>, stage: int)
    ensures forall m :: m in InStage(ms, stage) <==> m in ms && m.stage == stage
  {
    if ms != [] {
      InStageMembers(ms[1..], stage);
      assert ms == [ms[0]] + ms[1..];
    }
  }

  // ---------------------------------------------------------------- column sums

  function SumGoalsOn(ms: seq<Match>, side: Side): nat
  {
    if ms == [] then 0 else GoalsOn(ms[0], side) + SumGoalsOn(ms[1..], side)
  }

  function SumTotalGoals(ms: seq<Match>): nat
  {
    if ms == [] then 0 else TotalGoals(ms[0]) + SumTotalGoals(ms[1..])
  }

  function CountHomeWins(ms: seq<Match>): nat
  {
    if ms == [] then 0
    else (if ms[0].homeGoals > ms[0].awayGoals then 1 else 0) + CountHomeWins(ms[1..])
  }

  function CountAwayWins(ms: seq<Match>): nat
  {
    if ms == [] then 0
    else (if ms[0].awayGoals > ms[0].homeGoals then 1 else 0) + CountAwayWins(ms[1..])
  }

  function CountDraws(ms: seq<Match>): nat
  {
    if ms == [] then 0
    else (if ms[0].homeGoals == ms[0].awayGoals then 1 else 0) + CountDraws(ms[1..])
  }

  /** Every match is exactly one of a home win, an away win and a draw. */
  lemma {:induction false} OutcomesPartition(ms: seq<Match>)
    ensures CountHomeWins(ms) + CountAwayWins(ms) + CountDraws(ms) == |ms|
  {
    if ms != [] {
      OutcomesPartition(ms[1..]);
    }
  }

  /** The total-goals column sums to the home column plus the away column. */
  lemma {:induction false} TotalGoalsSplit(ms: seq<Match>)
    ensures SumTotalGoals(ms) == SumGoalsOn(ms, Home) + SumGoalsOn(ms, Away)
  {
    if ms != [] {
      TotalGoalsSplit(ms[1..]);
    }
  }

  // ---------------------------------------------------------------- teams

  /** The name cells of the table read row by row: home, away, home, away, ... */
  function TeamNames(ms: seq<Match>): seq<string>
  {
    if ms == [] then [] else [ms[0].home, ms[0].away] + TeamNames(ms[1..])
  }

  /** Both names of every match are among the name cells. */
  lemma {:induction false} TeamNamesCover(ms: seq<Match>)
    ensures forall m :: m in ms ==> m.home in TeamNames(ms) && m.away in TeamNames(ms)
  {
    if ms != [] {
      var rest := ms[1..];
      TeamNamesCover(rest);
      assert TeamNames(ms) == [ms[0].home, ms[0].away] + TeamNames(rest);
      forall m | m in ms ensures m.home in TeamNames(ms) && m.away in TeamNames(ms) {
        if m != ms[0] {
          assert m in rest;
        }
      }
    }
  }

  /** Every name cell belongs to a match that involves that team. */
  lemma {:induction false} TeamNamesPlay(ms: seq<Match>)
    ensures forall t :: t in TeamNames(ms) ==> exists m :: m in ms && Involves(m, t)
  {
    if ms != [] {
      var rest := ms[1..];
      TeamNamesPlay(rest);
      assert TeamNames(ms) == [ms[0].home, ms[0].away] + TeamNames(rest);
      forall t | t in TeamNames(ms) ensures exists m :: m in ms && Involves(m, t) {
        if t == ms[0].home || t == ms[0].away {
          assert Involves(ms[0], t);
        } else {
          assert t in TeamNames(rest);
          var m :| m in rest && Involves(m, t);
          assert m in ms;
        }
      }
    }
  }

  /** The league's team list: every name that appears as home or away, once each,
      in order of first appearance. */
  function Teams(ms: seq<Match>): seq<string>
  {
    Unique(TeamNames(ms))
  }

  /** The team list lists each team of the table exactly once. */
  lemma {:induction false} TeamsSpec(ms: seq<Match>)
    ensures NoDuplicates(Teams(ms))
    ensures forall m :: m in ms ==> m.home in Teams(ms) && m.away in Teams(ms)
  {
    UniqueSpec(TeamNames(ms));
    TeamNamesCover(ms);
  }

  /** Every listed team has at least one match. */
  lemma TeamsPlay(ms: seq<Match>, t: string)
    requires t in Teams(ms)
    ensures Involving(ms, t) != []
  {
    UniqueSpec(TeamNames(ms));
    TeamNamesPlay(ms);
    var m :| m in ms && Involves(m, t);
    InvolvingMembers(ms, t);
    assert m in Involving(ms, t);
  }

  // ---------------------------------------------------------------- sums over a team list

  /** Over a list of teams: the goals on side `goals` of the matches each team plays
      on side `appear`, and the number of those matches. */
  function SideGoalsOverTeams(ms: seq<Match>, teams: seq<string>, appear: Side, goals: Side): nat
  {
    if teams == [] then 0
    else SumGoalsOn(OnSide(ms, teams[0], appear), goals) + SideGoalsOverTeams(ms, teams[1..], appear, goals)
  }

  function AppearancesOverTeams(ms: seq<Match>, teams: seq<string>, appear: Side): nat
  {
    if teams == [] then 0
    else |OnSide(ms, teams[0], appear)| + AppearancesOverTeams(ms, teams[1..], appear)
  }

  lemma OnSideCons(ms: seq<Match>, team: string, appear: Side, goals: Side)
    requires ms != []
    ensures SumGoalsOn(OnSide(ms, team, appear), goals)
         == (if TeamOn(ms[0], appear) == team then GoalsOn(ms[0], goals) else 0)
            + SumGoalsOn(OnSide(ms[1..], team, appear), goals)
    ensures |OnSide(ms, team, appear)|
         == (if TeamOn(ms[0], appear) == team then 1 else 0) + |OnSide(ms[1..], team, appear)|
  {
    if TeamOn(ms[0], appear) == team {
      assert ([ms[0]] + OnSide(ms[1..], team, appear))[1..] == OnSide(ms[1..], team, appear);
    }
  }

  lemma {:induction false} TeamSumsSplit(ms: seq<Match>, teams: seq<string>, appear: Side, goals: Side)
    requires ms != []
    requires NoDuplicates(teams)
    ensures SideGoalsOverTeams(ms, teams, appear, goals)
         == (if TeamOn(ms[0], appear) in teams then GoalsOn(ms[0], goals) else 0)
            + SideGoalsOverTeams(ms[1..], teams, appear, goals)
    ensures AppearancesOverTeams(ms, teams, appear)
         == (if TeamOn(ms[0], appear) in teams then 1 else 0) + AppearancesOverTeams(ms[1..], teams, appear)
  {
    if teams != [] {
      var tail := teams[1..];
      assert NoDuplicates(tail) by {
        forall i, j | 0 <= i < j < |tail| ensures tail[i] != tail[j] {
          assert tail[i] == teams[i + 1] && tail[j] == teams[j + 1];
        }
      }
      TeamSumsSplit(ms, tail, appear, goals);
      OnSideCons(ms, teams[0], appear, goals);
      if TeamOn(ms[0], appear) == teams[0] {
        assert teams[0] !in tail by {
          forall k | 0 <= k < |tail| ensures tail[k] != teams[0] {
            assert tail[k] == teams[k + 1];
          }
        }
      }
      assert TeamOn(ms[0], appear) in teams <==> TeamOn(ms[0], appear) == teams[0] || TeamOn(ms[0], appear) in tail;
    }
  }

  lemma {:induction false} NoMatchesNoTeamSums(teams: seq<string>, appear: Side, goals: Side)
    ensures SideGoalsOverTeams([], teams, appear, goals) == 0
    ensures AppearancesOverTeams([], teams, appear) == 0
  {
    if teams != [] {
      NoMatchesNoTeamSums(teams[1..], appear, goals);
    }
  }

  /** Double counting: when every match's team on side `appear` is listed exactly
      once, summing team by team counts every match, and its goals, exactly once. */
  lemma {:induction false} TeamSumsCoverMatches(ms: seq<Match>, teams: seq<string>, appear: Side, goals: Side)
    requires NoDuplicates(teams)
    requires forall m :: m in ms ==> TeamOn(m, appear) in teams
    ensures SideGoalsOverTeams(ms, teams, appear, goals) == SumGoalsOn(ms, goals)
    ensures AppearancesOverTeams(ms, teams, appear) == |ms|
  {
    if ms == [] {
      NoMatchesNoTeamSums(teams, appear, goals);
    } else {
      forall m | m in ms[1..] ensures TeamOn(m, appear) in teams {
        assert m in ms;
      }
      TeamSumsCoverMatches(ms[1..], teams, appear, goals);
      TeamSumsSplit(ms, teams, appear, goals);
      assert ms[0] in ms;
    }
  }
}
