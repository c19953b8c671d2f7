/** The two-club comparison page: the tallies of one team over the selected
    matches, the relative difference between two values of one metric, the
    verdict naming the better club, and the three "leader" lines of the story. */
module TeamComparison {
  import opened Common
  import opened Matches

  /** The per-team statistics dictionary of the page. `losses` is an `int`
      because the page computes it as a residual; `Stats` proves it is never
      negative. */
  datatype TeamStats = TeamStats(played: nat, goalsFor: nat, goalsAgainst: nat,
                                 wins: nat, draws: nat, losses: int)

  /** The team counts as the home side whenever the home name is its name. */
  function GoalsForIn(m: Match, team: string): nat
  {
    if m.home == team then m.homeGoals else m.awayGoals
  }

  function GoalsAgainstIn(m: Match, team: string): nat
  {
    if m.home == team then m.awayGoals else m.homeGoals
  }

  /** A win needs the team's own goals, in the role it plays, to be strictly more. */
  predicate WonBy(m: Match, team: string)
  {
    (m.home == team && m.homeGoals > m.awayGoals) || (m.away == team && m.awayGoals > m.homeGoals)
  }

  function SumGoalsFor(ms: seq<Match>, team: string): nat
  {
    if ms == [] then 0 else GoalsForIn(ms[0], team) + SumGoalsFor(ms[1..], team)
  }

  function SumGoalsAgainst(ms: seq<Match>, team: string): nat
  {
    if ms == [] then 0 else GoalsAgainstIn(ms[0], team) + SumGoalsAgainst(ms[1..], team)
  }

  function CountWins(ms: seq<Match>, team: string): nat
  {
    if ms == [] then 0 else (if WonBy(ms[0], team) then 1 else 0) + CountWins(ms[1..], team)
  }

  /** No match is both a win and a draw, so wins and draws never outnumber matches. */
  lemma {:induction false} WinsAndDrawsAtMostPlayed(ms: seq<Match>, team: string)
    ensures CountWins(ms, team) + CountDraws(ms) <= |ms|
  {
    if ms != [] {
      WinsAndDrawsAtMostPlayed(ms[1..], team);
    }
  }

  /** The page's `stats`: the matches of `team`, the goals it scored and
      conceded, its wins and draws, and its losses as what is left over. */
  function Stats(ms: seq<Match>, team: string): (r: TeamStats)
    ensures r.wins + r.draws + r.losses == r.played
    ensures r.losses >= 0
  {
    var g := Involving(ms, team);
    var wins := CountWins(g, team);
    var draws := CountDraws(g);
    WinsAndDrawsAtMostPlayed(g, team);
    TeamStats(|g|, SumGoalsFor(g, team), SumGoalsAgainst(g, team), wins, draws, |g| - wins - draws)
  }

  /** Statistics of a single match, role by role. */
  lemma StatsOfOneMatch(m: Match, team: string)
    ensures !Involves(m, team) ==> Stats([m], team) == TeamStats(0, 0, 0, 0, 0, 0)
    ensures m.home == team ==>
      Stats([m], team).played == 1 &&
      Stats([m], team).goalsFor == m.homeGoals && Stats([m], team).goalsAgainst == m.awayGoals
    ensures m.home != team && m.away == team ==>
      Stats([m], team).played == 1 &&
      Stats([m], team).goalsFor == m.awayGoals && Stats([m], team).goalsAgainst == m.homeGoals
    ensures Involves(m, team) ==> (Stats([m], team).draws == 1 <==> m.homeGoals == m.awayGoals)
    ensures Involves(m, team) && m.home != m.away ==>
      (Stats([m], team).wins == 1 <==> Stats([m], team).goalsFor > Stats([m], team).goalsAgainst) &&
      (Stats([m], team).losses == 1 <==> Stats([m], team).goalsFor < Stats([m], team).goalsAgainst)
    ensures m.home == team && m.away == team ==>
      (Stats([m], team).wins == 1 <==> m.homeGoals != m.awayGoals)
  {
    assert [m][1..] == [];
    var g := Involving([m], team);
    assert g == if Involves(m, team) then [m] else [];
    if Involves(m, team) {
      assert g[1..] == [];
      assert SumGoalsFor(g, team) == GoalsForIn(m, team);
      assert SumGoalsAgainst(g, team) == GoalsAgainstIn(m, team);
      assert CountWins(g, team) == if WonBy(m, team) then 1 else 0;
      assert CountDraws(g) == if m.homeGoals == m.awayGoals then 1 else 0;
    }
  }

  /** The statistics of two match lists together, field by field. */
  function AddStats(a: TeamStats, b: TeamStats): TeamStats
  {
    TeamStats(a.played + b.played, a.goalsFor + b.goalsFor, a.goalsAgainst + b.goalsAgainst,
              a.wins + b.wins, a.draws + b.draws, a.losses + b.losses)
  }

  lemma {:induction false} InvolvingAppend(a: seq<Match>, b: seq<Match>, team: string)
    ensures Involving(a + b, team) == Involving(a, team) + Involving(b, team)
  {
    if a == [] {
      assert a + b == b;
    } else {
      assert (a + b)[1..] == a[1..] + b;
      InvolvingAppend(a[1..], b, team);
    }
  }

  lemma {:induction false} TalliesAppend(a: seq<Match>, b: seq<Match>, team: string)
    ensures SumGoalsFor(a + b, team) == SumGoalsFor(a, team) + SumGoalsFor(b, team)
    ensures SumGoalsAgainst(a + b, team) == SumGoalsAgainst(a, team) + SumGoalsAgainst(b, team)
    ensures CountWins(a + b, team) == CountWins(a, team) + CountWins(b, team)
    ensures CountDraws(a + b) == CountDraws(a) + CountDraws(b)
  {
    if a == [] {
      assert a + b == b;
    } else {
      assert (a + b)[1..] == a[1..] + b;
      TalliesAppend(a[1..], b, team);
    }
  }

  /** `Stats` is a sum over matches: splitting the match list splits every field. */
  lemma StatsAppend(a: seq<Match>, b: seq<Match>, team: string)
    ensures Stats(a + b, team) == AddStats(Stats(a, team), Stats(b, team))
  {
    InvolvingAppend(a, b, team);
    TalliesAppend(Involving(a, team), Involving(b, team), team);
  }

  /** The order of the two parts of the match list does not matter. */
  lemma StatsSwapParts(a: seq<Match>, b: seq<Match>, team: string)
    ensures Stats(a + b, team) == Stats(b + a, team)
  {
    StatsAppend(a, b, team);
    StatsAppend(b, a, team);
  }

  /** The page's win, draw and loss percentages (`calc_percent` of each tally over the
      matches played): all 0 for a team without matches, otherwise each between 0
      and 100 and together exactly 100. */
  lemma StatsSharesAddUp(ms: seq<Match>, team: string)
    ensures var s := Stats(ms, team);
      s.played == 0 ==> Percent(s.wins, s.played) == Percent(s.draws, s.played) == Percent(s.losses, s.played) == 0.0
    ensures var s := Stats(ms, team);
      s.played > 0 ==> Percent(s.wins, s.played) + Percent(s.draws, s.played) + Percent(s.losses, s.played) == 100.0
    ensures var s := Stats(ms, team);
      0.0 <= Percent(s.wins, s.played) <= 100.0 && 0.0 <= Percent(s.draws, s.played) <= 100.0 &&
      0.0 <= Percent(s.losses, s.played) <= 100.0
  {
    var s := Stats(ms, team);
    PercentBounds(s.wins, s.played);
    PercentBounds(s.draws, s.played);
    PercentBounds(s.losses, s.played);
    if s.played > 0 {
      SharesOfAWhole(s.wins, s.draws, s.losses, s.played);
    }
  }

  lemma SharesOfAWhole(a: int, b: int, c: int, whole: int)
    requires whole > 0 && a + b + c == whole
    ensures Percent(a, whole) + Percent(b, whole) + Percent(c, whole) == 100.0
  {
    var w := whole as real;
    var sum := Percent(a, whole) + Percent(b, whole) + Percent(c, whole);
    assert sum * w == (a as real) * 100.0 + (b as real) * 100.0 + (c as real) * 100.0;
    assert sum * w == 100.0 * w;
  }

  // ---------------------------------------------------------------- relative difference

  /** The suffix word of a relative difference: "mais" or "menos". */
  datatype Direction = More | Less
  {
    function Word(): string
    {
      if More? then "mais" else "menos"
    }
  }

  /** The result of the page's `percentual_relativo`: "igual", or a percentage with
      its suffix. */
  datatype Relative = Same | Diff(percent: real, direction: Direction)

  function Abs(x: int): nat
  {
    if x < 0 then -x else x
  }

  /** The value of the side that loses on a metric: the larger value when lower is
      better, the smaller one otherwise. */
  function Worse(v1: int, v2: int, lowerIsBetter: bool): int
  {
    if lowerIsBetter then (if v1 < v2 then v2 else v1) else (if v1 > v2 then v2 else v1)
  }

  /** `percentual_relativo`. The page divides without a guard, so the caller must
      not ask for a difference relative to zero. */
  function RelativeDifference(v1: int, v2: int, lowerIsBetter: bool): (r: Relative)
    requires v1 != v2 ==> Worse(v1, v2, lowerIsBetter) != 0
    ensures r.Same? <==> v1 == v2
    ensures r.Diff? ==> r.direction == (if lowerIsBetter then Less else More)
    ensures r.Diff? ==> r.percent * (Worse(v1, v2, lowerIsBetter) as real) == (Abs(v1 - v2) as real) * 100.0
  {
    if v1 == v2 then Same
    else if lowerIsBetter then
      if v1 < v2 then Diff(((v2 - v1) as real) / (v2 as real) * 100.0, Less)
      else Diff(((v1 - v2) as real) / (v1 as real) * 100.0, Less)
    else
      if v1 > v2 then Diff(((v1 - v2) as real) / (v2 as real) * 100.0, More)
      else Diff(((v2 - v1) as real) / (v1 as real) * 100.0, More)
  }

  /** The difference does not depend on the order of the two values. */
  lemma RelativeDifferenceSymmetric(v1: int, v2: int, lowerIsBetter: bool)
    requires v1 != v2 ==> Worse(v1, v2, lowerIsBetter) != 0
    ensures RelativeDifference(v1, v2, lowerIsBetter) == RelativeDifference(v2, v1, lowerIsBetter)
  {
  }

  /** With counts (never negative), lower-is-better never divides by zero. */
  lemma LowerIsBetterHasNoZeroDivisor(v1: int, v2: int)
    requires 0 <= v1 && 0 <= v2 && v1 != v2
    ensures Worse(v1, v2, true) > 0
  {
  }

  /** For counts, a difference is positive; when lower is better it is at most 100%
      because the denominator is the larger value. */
  lemma RelativeDifferenceBounds(v1: int, v2: int, lowerIsBetter: bool)
    requires 0 <= v1 && 0 <= v2
    requires v1 != v2 ==> Worse(v1, v2, lowerIsBetter) != 0
    ensures RelativeDifference(v1, v2, lowerIsBetter).Diff? ==> RelativeDifference(v1, v2, lowerIsBetter).percent > 0.0
    ensures lowerIsBetter && RelativeDifference(v1, v2, lowerIsBetter).Diff? ==>
      RelativeDifference(v1, v2, lowerIsBetter).percent <= 100.0
  {
    if v1 != v2 {
      var hi := if v1 < v2 then v2 else v1;
      var lo := if v1 < v2 then v1 else v2;
      var w := Worse(v1, v2, lowerIsBetter);
      assert RelativeDifference(v1, v2, lowerIsBetter).percent == ((hi - lo) as real) / (w as real) * 100.0;
      QuotientBounds((hi - lo) as real, w as real);
    }
  }

  lemma QuotientBounds(d: real, w: real)
    requires 0.0 < d && 0.0 < w
    ensures d / w * 100.0 > 0.0
    ensures d <= w ==> d / w * 100.0 <= 100.0
  {
    var q := d / w;
    assert q * w == d;
  }

  // ---------------------------------------------------------------- verdict

  /** The two clubs chosen on the page. */
  datatype Selection = Selection(team1: string, team2: string)

  /** `time_oposto`: the other selected club. */
  function Opposite(sel: Selection, current: string): string
  {
    if current == sel.team1 then sel.team2 else sel.team1
  }

  /** For two different clubs, the other club of the other club is the club itself. */
  lemma OppositeSwaps(sel: Selection)
    requires sel.team1 != sel.team2
    ensures Opposite(sel, sel.team1) == sel.team2 && Opposite(sel, sel.team2) == sel.team1
    ensures Opposite(sel, Opposite(sel, sel.team1)) == sel.team1
  {
  }

  /** The second part of a verdict: "igual ao <club>", or the relative difference. */
  datatype Comment = EqualTo(other: string) | Ahead(delta: Relative)

  /** The pair `comparativo` returns: the better club (or "igual") and the comment. */
  datatype Verdict = Verdict(leader: string, comment: Comment)

  /** Whether the first value is the better one on the metric. */
  predicate Better(v1: int, v2: int, lowerIsBetter: bool)
  {
    if lowerIsBetter then v1 < v2 else v1 > v2
  }

  /** `comparativo`: on equal values "igual" and "igual ao" the other selected club;
      otherwise the club with the better value and its relative advantage. */
  function Compare(sel: Selection, v1: int, v2: int, name1: string, name2: string,
                   lowerIsBetter: bool): (r: Verdict)
    requires v1 != v2 ==> Worse(v1, v2, lowerIsBetter) != 0
    ensures v1 == v2 ==> r == Verdict("igual", EqualTo(Opposite(sel, name1)))
    ensures v1 != v2 ==> r.leader == (if Better(v1, v2, lowerIsBetter) then name1 else name2)
    ensures v1 != v2 ==> r.comment.Ahead? && r.comment.delta.Diff?
    ensures v1 != v2 ==> r.comment.delta.direction == (if lowerIsBetter then Less else More)
    ensures v1 != v2 ==>
      r.comment.delta.percent * (Worse(v1, v2, lowerIsBetter) as real) == (Abs(v1 - v2) as real) * 100.0
  {
    if v1 == v2 then Verdict("igual", EqualTo(Opposite(sel, name1)))
    else if lowerIsBetter then
      if v1 < v2 then Verdict(name1, Ahead(RelativeDifference(v1, v2, true)))
      else Verdict(name2, Ahead(RelativeDifference(v2, v1, true)))
    else
      if v1 > v2 then Verdict(name1, Ahead(RelativeDifference(v1, v2, false)))
      else Verdict(name2, Ahead(RelativeDifference(v2, v1, false)))
  }

  /** Naming the clubs in the other order does not change a verdict on different values. */
  lemma CompareSwap(sel: Selection, v1: int, v2: int, name1: string, name2: string, lowerIsBetter: bool)
    requires v1 != v2 && Worse(v1, v2, lowerIsBetter) != 0
    ensures Compare(sel, v1, v2, name1, name2, lowerIsBetter) == Compare(sel, v2, v1, name2, name1, lowerIsBetter)
  {
  }

  // ---------------------------------------------------------------- story

  /** The three leader lines of the first story. */
  datatype Narrative = Narrative(mostGoals: string, mostWins: string, fewestLosses: string)

  /** A leader line: team 1 only when it is strictly better, team 2 otherwise. */
  function Leader(v1: int, v2: int, team1: string, team2: string, lowerIsBetter: bool): string
  {
    if Better(v1, v2, lowerIsBetter) then team1 else team2
  }

  function Narrate(s1: TeamStats, s2: TeamStats, team1: string, team2: string): Narrative
  {
    Narrative(Leader(s1.goalsFor, s2.goalsFor, team1, team2, false),
              Leader(s1.wins, s2.wins, team1, team2, false),
              Leader(s1.losses, s2.losses, team1, team2, true))
  }

  /** On a tie the story names team 2 as the leader, where the verdict says "igual". */
  lemma NarrativeTiesGoToTeam2(s1: TeamStats, s2: TeamStats, team1: string, team2: string)
    ensures s1.goalsFor == s2.goalsFor ==> Narrate(s1, s2, team1, team2).mostGoals == team2
    ensures s1.wins == s2.wins ==> Narrate(s1, s2, team1, team2).mostWins == team2
    ensures s1.losses == s2.losses ==> Narrate(s1, s2, team1, team2).fewestLosses == team2
    ensures team1 != team2 ==>
      (Narrate(s1, s2, team1, team2).mostGoals == team1 <==> s1.goalsFor > s2.goalsFor)
  {
  }

  /** Where the two values differ, the story line and the verdict name the same club. */
  lemma LeaderAgreesWithVerdict(sel: Selection, v1: int, v2: int, team1: string, team2: string,
                                lowerIsBetter: bool)
    requires v1 != v2 && Worse(v1, v2, lowerIsBetter) != 0
    ensures Leader(v1, v2, team1, team2, lowerIsBetter) == Compare(sel, v1, v2, team1, team2, lowerIsBetter).leader
  {
  }
}
