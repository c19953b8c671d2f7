/** Matches above goal thresholds: the league-wide counts and percentages for the
    thresholds 0.5, 1.5, 2.5 and 3.5, the per-team ranking rows, and the top five
    teams for each threshold. */
module Thresholds {
  import opened Common
  import opened Matches
  import opened Ordering

  /** The four thresholds, in display order. */
  const GoalThresholds: seq<real> := [0.5, 1.5, 2.5, 3.5]

  /** The number of matches whose total goals exceed `f`. */
  function CountAbove(ms: seq<Match>, f: real): (n: nat)
    ensures n <= |ms|
  {
    if ms == [] then 0
    else (if (TotalGoals(ms[0]) as real) > f then 1 else 0) + CountAbove(ms[1..], f)
  }

  /** A reference count on the integers: the matches with at least `k` goals. */
  function CountAtLeast(ms: seq<Match>, k: nat): nat
  {
    if ms == [] then 0
    else (if TotalGoals(ms[0]) >= k then 1 else 0) + CountAtLeast(ms[1..], k)
  }

  /** For a whole goal total, "more than k + 0.5 goals" means "at least k + 1 goals". */
  lemma {:induction false} HalfThresholdIsWholeCount(ms: seq<Match>, k: nat)
    ensures CountAbove(ms, k as real + 0.5) == CountAtLeast(ms, k + 1)
  {
    if ms != [] {
      HalfThresholdIsWholeCount(ms[1..], k);
      var t := TotalGoals(ms[0]);
      assert (t as real) > k as real + 0.5 <==> t >= k + 1;
    }
  }

  /** A higher threshold never counts more matches. */
  lemma {:induction false} CountAboveAntitone(ms: seq<Match>, f: real, g: real)
    requires f <= g
    ensures CountAbove(ms, g) <= CountAbove(ms, f)
  {
    if ms != [] {
      CountAboveAntitone(ms[1..], f, g);
    }
  }

  /** The count of each threshold of a list, in list order. */
  function CountsFor(ms: seq<Match>, fs: seq<real>): (cs: seq<nat>)
    ensures |cs| == |fs|
  {
    if fs == [] then [] else [CountAbove(ms, fs[0])] + CountsFor(ms, fs[1..])
  }

  lemma {:induction false} CountsForAt(ms: seq<Match>, fs: seq<real>)
    ensures forall i :: 0 <= i < |fs| ==> CountsFor(ms, fs)[i] == CountAbove(ms, fs[i])
  {
    if fs != [] {
      CountsForAt(ms, fs[1..]);
      forall i | 1 <= i < |fs| ensures CountsFor(ms, fs)[i] == CountAbove(ms, fs[i]) {
        assert fs[1..][i - 1] == fs[i];
      }
    }
  }

  /** The league-wide counts, one per threshold. */
  function LeagueCounts(ms: seq<Match>): seq<nat>
  {
    CountsFor(ms, GoalThresholds)
  }

  /** The league-wide counts go down (weakly) from 0.5 to 3.5 and never exceed the
      number of matches; count i is the number of matches with more than i goals. */
  lemma LeagueCountsShape(ms: seq<Match>)
    ensures |LeagueCounts(ms)| == 4
    ensures forall i :: 0 <= i < 4 ==> LeagueCounts(ms)[i] == CountAtLeast(ms, i + 1)
    ensures forall i :: 0 <= i < 4 ==> LeagueCounts(ms)[i] <= |ms|
    ensures forall i, j :: 0 <= i < j < 4 ==> LeagueCounts(ms)[j] <= LeagueCounts(ms)[i]
  {
    var cs := LeagueCounts(ms);
    CountsForAt(ms, GoalThresholds);
    forall i | 0 <= i < 4 ensures cs[i] == CountAtLeast(ms, i + 1) {
      HalfThresholdIsWholeCount(ms, i);
      assert GoalThresholds[i] == i as real + 0.5;
    }
    forall i, j | 0 <= i < j < 4 ensures cs[j] <= cs[i] {
      CountAboveAntitone(ms, GoalThresholds[i], GoalThresholds[j]);
    }
  }

  /** The displayed league percentage of one count: 0 when there are no matches. */
  function LeaguePercent(ms: seq<Match>, count: nat): real
  {
    Percent(count, |ms|)
  }

  /** The league percentages are 0 without matches and otherwise the exact share
      of the matches, between 0 and 100. */
  lemma LeaguePercentsShape(ms: seq<Match>, i: nat)
    requires i < 4
    ensures |ms| == 0 ==> LeaguePercent(ms, LeagueCounts(ms)[i]) == 0.0
    ensures 0.0 <= LeaguePercent(ms, LeagueCounts(ms)[i]) <= 100.0
    ensures |ms| > 0 ==>
      LeaguePercent(ms, LeagueCounts(ms)[i]) * (|ms| as real) == (LeagueCounts(ms)[i] as real) * 100.0
  {
    LeagueCountsShape(ms);
    PercentBounds(LeagueCounts(ms)[i], |ms|);
  }

  // ---------------------------------------------------------------- per-team ranking

  /** One row of the per-team ranking: the team's matches above a threshold and
      their share of all its matches. */
  datatype RankEntry = RankEntry(team: string, threshold: real, matchesAbove: nat, percent: real)

  /** The row of one team and threshold, for a team with `matches` its matches. */
  function EntryFor(matches: seq<Match>, team: string, f: real): (e: RankEntry)
    requires matches != []
    ensures e.team == team && e.threshold == f
    ensures e.matchesAbove <= |matches|
    ensures e.percent * (|matches| as real) == (e.matchesAbove as real) * 100.0
    ensures 0.0 <= e.percent <= 100.0
  {
    var above := CountAbove(matches, f);
    PercentBounds(above, |matches|);
    RankEntry(team, f, above, Percent(above, |matches|))
  }

  /** The rows of one team for a list of thresholds, in list order. */
  function EntriesFor(matches: seq<Match>, team: string, fs: seq<real>): (es: seq<RankEntry>)
    requires matches != []
    ensures |es| == |fs|
  {
    if fs == [] then [] else EntriesFor(matches, team, fs[..|fs| - 1]) + [EntryFor(matches, team, fs[|fs| - 1])]
  }

  /** The rows of one team: none when it has no matches, else one per threshold. */
  function TeamEntries(ms: seq<Match>, team: string): seq<RankEntry>
  {
    var matches := Involving(ms, team);
    if |matches| == 0 then [] else EntriesFor(matches, team, GoalThresholds)
  }

  /** The ranking rows of a list of teams, team after team. */
  function RankingOf(ms: seq<Match>, teams: seq<string>): seq<RankEntry>
  {
    if teams == [] then [] else RankingOf(ms, teams[..|teams| - 1]) + TeamEntries(ms, teams[|teams| - 1])
  }

  /** The page's nested loop: for every team with matches, one row per threshold. */
  method Ranking(ms: seq<Match>) returns (ranking: seq<RankEntry>)
    ensures ranking == RankingOf(ms, Teams(ms))
  {
    var teams := Teams(ms);
    ranking := [];
    var i := 0;
    while i < |teams|
      invariant 0 <= i <= |teams|
      invariant ranking == RankingOf(ms, teams[..i])
    {
      var team := teams[i];
      var matches := Involving(ms, team);
      assert teams[..i + 1][..i] == teams[..i];
      if |matches| == 0 {
        i := i + 1;
        continue;
      }
      var j := 0;
      var before := ranking;
      while j < |GoalThresholds|
        invariant 0 <= j <= |GoalThresholds|
        invariant ranking == before + EntriesFor(matches, team, GoalThresholds[..j])
      {
        var f := GoalThresholds[j];
        var above := CountAbove(matches, f);
        var percent := (above as real) / (|matches| as real) * 100.0;
        assert GoalThresholds[..j + 1][..j] == GoalThresholds[..j];
        ranking := ranking + [RankEntry(team, f, above, percent)];
        j := j + 1;
      }
      assert GoalThresholds[..j] == GoalThresholds;
      i := i + 1;
    }
    assert teams[..i] == teams;
  }

  lemma {:induction false} EntriesForMembers(matches: seq<Match>, team: string, fs: seq<real>)
    requires matches != []
    ensures forall e :: e in EntriesFor(matches, team, fs) <==>
      exists f :: f in fs && e == EntryFor(matches, team, f)
  {
    if fs != [] {
      var init := fs[..|fs| - 1];
      EntriesForMembers(matches, team, init);
      assert fs == init + [fs[|fs| - 1]];
      forall e ensures e in EntriesFor(matches, team, fs) <==>
        exists f :: f in fs && e == EntryFor(matches, team, f)
      {
        assert EntriesFor(matches, team, fs) == EntriesFor(matches, team, init) + [EntryFor(matches, team, fs[|fs| - 1])];
        if e in EntriesFor(matches, team, fs) && e != EntryFor(matches, team, fs[|fs| - 1]) {
          assert e in EntriesFor(matches, team, init);
          var f :| f in init && e == EntryFor(matches, team, f);
          assert f in fs;
        }
        if exists f :: f in fs && e == EntryFor(matches, team, f) {
          var f :| f in fs && e == EntryFor(matches, team, f);
          if f != fs[|fs| - 1] {
            assert f in init;
          }
        }
      }
    }
  }

  lemma {:induction false} RankingOfMembers(ms: seq<Match>, teams: seq<string>)
    ensures forall e :: e in RankingOf(ms, teams) <==>
      e.team in teams && e in TeamEntries(ms, e.team)
  {
    if teams != [] {
      var init := teams[..|teams| - 1];
      var last := teams[|teams| - 1];
      RankingOfMembers(ms, init);
      assert teams == init + [last];
      forall e | e in TeamEntries(ms, last) ensures e.team == last {
        EntriesForMembers(Involving(ms, last), last, GoalThresholds);
      }
    }
  }

  /** The rows of the ranking: one per team of the league and threshold, each
      counting that team's matches above that threshold, with the exact share of
      its matches as a percentage between 0 and 100; no team without matches. */
  lemma RankingEntries(ms: seq<Match>)
    ensures forall e :: e in RankingOf(ms, Teams(ms)) <==>
      e.team in Teams(ms) && Involving(ms, e.team) != [] && e.threshold in GoalThresholds &&
      e == EntryFor(Involving(ms, e.team), e.team, e.threshold)
  {
    RankingOfMembers(ms, Teams(ms));
    forall t | t in Teams(ms) && Involving(ms, t) != [] {
      EntriesForMembers(Involving(ms, t), t, GoalThresholds);
    }
  }

  /** Every team of the league has matches, so it gets all four rows. */
  lemma {:induction false} RankingLength(ms: seq<Match>, teams: seq<string>)
    requires forall t :: t in teams ==> t in Teams(ms)
    ensures |RankingOf(ms, teams)| == 4 * |teams|
  {
    if teams != [] {
      var init := teams[..|teams| - 1];
      forall t | t in init ensures t in Teams(ms) {
        assert t in teams;
      }
      RankingLength(ms, init);
      TeamsPlay(ms, teams[|teams| - 1]);
    }
  }

  // ---------------------------------------------------------------- top five

  /** Ranking order: more matches above the threshold first. */
  predicate MoreAbove(a: RankEntry, b: RankEntry)
  {
    a.matchesAbove >= b.matchesAbove
  }

  lemma MoreAboveIsTotalPreorder()
    ensures TotalPreorder(MoreAbove)
  {
  }

  /** The ranking rows of one threshold, in ranking order. */
  function OfThreshold(ranking: seq<RankEntry>, f: real): (r: seq<RankEntry>)
    ensures |r| <= |ranking|
  {
    if ranking == [] then []
    else if ranking[0].threshold == f then [ranking[0]] + OfThreshold(ranking[1..], f)
    else OfThreshold(ranking[1..], f)
  }

  lemma {:induction false} OfThresholdMembers(ranking: seq<RankEntry>, f: real)
    ensures forall e :: e in OfThreshold(ranking, f) <==> e in ranking && e.threshold == f
  {
    if ranking != [] {
      OfThresholdMembers(ranking[1..], f);
      assert ranking == [ranking[0]] + ranking[1..];
    }
  }

  function Min(a: int, b: int): int
  {
    if a <= b then a else b
  }

  /** The rows of threshold `f` sorted by matches above it, descending, cut to five. */
  function Top5(ranking: seq<RankEntry>, f: real): seq<RankEntry>
  {
    var sorted := SortDesc(OfThreshold(ranking, f), MoreAbove);
    SortDescPermutes(OfThreshold(ranking, f), MoreAbove);
    sorted[..Min(5, |sorted|)]
  }

  /** The top list has at most five rows, all of threshold `f` and from the ranking,
      in descending count; and no row of that threshold left out has a larger count
      than a row kept. */
  lemma Top5Spec(ranking: seq<RankEntry>, f: real)
    ensures |Top5(ranking, f)| == Min(5, |OfThreshold(ranking, f)|)
    ensures forall e :: e in Top5(ranking, f) ==> e in ranking && e.threshold == f
    ensures SortedBy(Top5(ranking, f), MoreAbove)
    ensures multiset(Top5(ranking, f)) <= multiset(OfThreshold(ranking, f))
    ensures forall e, x :: (e in Top5(ranking, f) && x in multiset(OfThreshold(ranking, f)) - multiset(Top5(ranking, f))
      ==> e.matchesAbove >= x.matchesAbove)
  {
    var rows := OfThreshold(ranking, f);
    var sorted := SortDesc(rows, MoreAbove);
    var k := Min(5, |sorted|);
    var top := sorted[..k];
    SortDescPermutes(rows, MoreAbove);
    MoreAboveIsTotalPreorder();
    SortDescSorted(rows, MoreAbove);
    OfThresholdMembers(ranking, f);
    assert sorted == top + sorted[k..];
    assert multiset(sorted) == multiset(top) + multiset(sorted[k..]);
    forall e | e in top ensures e in ranking && e.threshold == f {
      assert e in multiset(rows);
    }
    assert SortedBy(top, MoreAbove) by {
      forall i, j | 0 <= i < j < |top| ensures MoreAbove(top[i], top[j]) {
        assert top[i] == sorted[i] && top[j] == sorted[j];
      }
    }
    PrefixDominates(sorted, k, MoreAbove);
    forall e, x | e in top && x in multiset(rows) - multiset(top) ensures e.matchesAbove >= x.matchesAbove {
      assert x in multiset(sorted[k..]);
      assert x in sorted[k..];
    }
  }
}
