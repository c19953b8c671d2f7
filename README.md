# Football dashboard aggregations, modelled in Dafny

The dashboard reads a European football database and shows three pages. This
project models the logic of those pages, which turns a flat list of matches or
player rows into statistics:

- **Two-club comparison** (`pages/Comparativo_entre_dois_times.py`). It covers:
  - the per-club tallies `stats`: matches, goals scored and conceded, wins, draws and losses;
  - the guarded share `calc_percent`;
  - the relative difference `percentual_relativo`;
  - the verdict `comparativo`, which names the better club on a metric, with a "lower is better" mode;
  - the "leader" lines of the story.
- **League overview** (`pages/Visao_Geral_das_Ligas.py`). It covers:
  - per-round outcome counts, built by a loop;
  - per-round goal sums and averages;
  - the league average and the round with the most goals;
  - the standings table, built by a loop and sorted by points, goal difference and goals scored;
  - league-wide counts of matches above 0.5, 1.5, 2.5 and 3.5 goals;
  - the per-team threshold ranking, built by a nested loop, and its top five per threshold.
- **Player profile** (`pages/Raio-X_de_jogadores.py`). It covers:
  - case-insensitive name search and the selection of a player;
  - the latest attribute snapshot;
  - the six displayed attributes;
  - the decision list that names a playing style.

A match is `Matches.Match(home, away, homeGoals, awayGoals, stage)`. The team names are already resolved, and the list is already restricted to the selected league and seasons.

Modules:

| module | file | contents |
|---|---|---|
| `Common` | `common.dfy` | `Option`, order-preserving de-duplication (pandas `unique`), the guarded percentage |
| `Matches` | `matches.dfy` | the match row, the row filters, the column sums, the league's team list, double counting over teams |
| `Ordering` | `ordering.dfy` | a descending insertion sort by a "ranks at least as high" relation, with permutation, order and prefix lemmas |
| `TeamComparison` | `comparison.dfy` | the comparison page |
| `Rounds` | `rounds.dfy` | the per-round part of the overview page |
| `Standings` | `standings.dfy` | the standings table |
| `Thresholds` | `thresholds.dfy` | goal thresholds, the ranking loop and the top-5 lists |
| `PlayerProfile` | `players.dfy` | the player page |

The form of each file follows its page:

- The comparison and player pages are expressions. They become functions and lemmas.
- The overview page builds three lists by `append` loops. These become methods with `while` loops, each proved equal to a specification function:
  - `Rounds.RoundResults`
  - `Standings.BuildStandings`
  - `Thresholds.Ranking`
- The pure parts of the overview page (group sums, comprehensions, sorts) are functions.

Choices the model takes from the code:

- The page divides without a guard when it computes a relative difference; the model requires a non-zero denominator.
- The per-team threshold ranking skips clubs without matches.
- On equal values the verdict is ("igual", "igual ao " + the other club).
- The percentage denominator is always the losing side's value:
  - when higher is better, it is the smaller value, as `percentual_relativo` computes it;
  - when lower is better, it is the larger value.

## Model

| member | source | states |
|---|---|---|
| Common.UniqueSpec | pages/Visao_Geral_das_Ligas.py:107 | de-duplication lists each element of its input exactly once and nothing else |
| Common.Percent | pages/Comparativo_entre_dois_times.py:173-174 | the share is 0 when the total is not positive, otherwise exactly part/total·100 |
| Common.PercentBounds | pages/Comparativo_entre_dois_times.py:173-174 | a part of a whole has a share between 0 and 100 |
| Matches.InvolvingMembers | pages/Comparativo_entre_dois_times.py:81-83 | the club filter keeps exactly the matches with the club at home or away |
| Matches.OnSideMembers | pages/Visao_Geral_das_Ligas.py:113-114 | the home (away) filter keeps exactly the matches with the club in the home (away) column |
| Matches.InStageMembers | pages/Visao_Geral_das_Ligas.py:61 | a round's group is exactly the matches of that stage |
| Matches.OutcomesPartition | pages/Visao_Geral_das_Ligas.py:62-64 | home wins, away wins and draws add up to the number of matches |
| Matches.TotalGoalsSplit | pages/Visao_Geral_das_Ligas.py:56 | the total-goals column sums to the home column plus the away column |
| Matches.TeamsSpec | pages/Visao_Geral_das_Ligas.py:107 | the team list has no repeats and contains both clubs of every match |
| Matches.TeamsPlay | pages/Visao_Geral_das_Ligas.py:221-230 | every listed club has at least one match |
| Matches.TeamSumsCoverMatches | pages/Visao_Geral_das_Ligas.py:126-127 | summing over a repeat-free team list that covers every match counts each match, and its goals, exactly once |
| Ordering.SortDescPermutes | pages/Visao_Geral_das_Ligas.py:146 | sorting returns a permutation of its input |
| Ordering.SortDescSorted | pages/Visao_Geral_das_Ligas.py:146 | under a total preorder, sorting returns descending rank order |
| Ordering.PrefixDominates | pages/Visao_Geral_das_Ligas.py:248-250 | the first k rows of a sorted list rank at least as high as every later row |
| Ordering.SortDescKeepsKeysDistinct | pages/Visao_Geral_das_Ligas.py:146 | sorting keeps distinct keys distinct |
| TeamComparison.Stats | pages/Comparativo_entre_dois_times.py:80-119 | wins + draws + losses = matches, and losses (the residual) is never negative |
| TeamComparison.WinsAndDrawsAtMostPlayed | pages/Comparativo_entre_dois_times.py:98-110 | no match is both a win and a draw, so wins + draws never exceed the matches |
| TeamComparison.StatsOfOneMatch | pages/Comparativo_entre_dois_times.py:85-108 | on a single match: roles decide goals for/against; a draw whenever the two scores are equal; a win iff own goals are strictly more; with the same club on both sides every non-draw counts as a win |
| TeamComparison.StatsAppend | pages/Comparativo_entre_dois_times.py:80-119 | tallies of two match lists together are the field-wise sums of the separate tallies |
| TeamComparison.StatsSwapParts | pages/Comparativo_entre_dois_times.py:80-119 | tallies do not depend on the order of the parts of the match list |
| TeamComparison.StatsSharesAddUp | pages/Comparativo_entre_dois_times.py:173-189 | the win, draw and loss shares are 0 without matches, otherwise each in [0,100] and together exactly 100 |
| TeamComparison.RelativeDifference | pages/Comparativo_entre_dois_times.py:208-233 | "igual" iff the values are equal; otherwise the suffix is "menos" when lower is better and "mais" otherwise, and the percentage is the absolute difference over the losing side's value, times 100 |
| TeamComparison.RelativeDifferenceSymmetric | pages/Comparativo_entre_dois_times.py:218-233 | the difference does not depend on the order of the two values |
| TeamComparison.LowerIsBetterHasNoZeroDivisor | pages/Comparativo_entre_dois_times.py:218-225 | with non-negative counts the lower-is-better denominator is positive |
| TeamComparison.RelativeDifferenceBounds | pages/Comparativo_entre_dois_times.py:218-233 | for counts a difference is positive, and at most 100% when lower is better |
| TeamComparison.OppositeSwaps | pages/Comparativo_entre_dois_times.py:235-236 | for two different clubs the opposite of one is the other, and taking the opposite twice returns the club |
| TeamComparison.Compare | pages/Comparativo_entre_dois_times.py:239-251 | equal values give ("igual", "igual ao" the other club); otherwise the leader is the club with the strictly better value (smaller when lower is better), with its advantage relative to the loser's value |
| TeamComparison.CompareSwap | pages/Comparativo_entre_dois_times.py:239-251 | for different values, swapping the clubs and their values leaves the verdict unchanged |
| TeamComparison.NarrativeTiesGoToTeam2 | pages/Comparativo_entre_dois_times.py:163-165 | the strict comparisons of the story name club 2 on every tie, where the verdict says "igual" |
| TeamComparison.LeaderAgreesWithVerdict | pages/Comparativo_entre_dois_times.py:163-165 | on different values the story line names the same club as the verdict |
| Rounds.StagesSpec | pages/Visao_Geral_das_Ligas.py:55 | the group keys are strictly ascending, and a stage is a key iff some match is played in it |
| Rounds.RoundResults | pages/Visao_Geral_das_Ligas.py:60-70 | one entry per stage in ascending order, each with the counts of that round, whose outcomes add up to its (non-zero) number of matches |
| Rounds.ResultOfSpec | pages/Visao_Geral_das_Ligas.py:61-64 | in a played round home wins + away wins + draws = the round's matches |
| Rounds.GoalsOf | pages/Visao_Geral_das_Ligas.py:55-56 | a round's home and away goals are the sums of those columns over its matches, its total is the sum of its match totals, and its average times its match count is that total |
| Rounds.GoalsPerRoundAt | pages/Visao_Geral_das_Ligas.py:74 | row i of the goals table is the round of the i-th stage in ascending order, the stage of entry i of `Rounds.RoundResults`, so the position-wise division pairs the right counts |
| Rounds.LeagueAverage | pages/Visao_Geral_das_Ligas.py:82-84 | 0 without matches, otherwise total goals over matches |
| Rounds.RoundTotalsAddUp | pages/Visao_Geral_das_Ligas.py:55-56 | the round totals add up to the league's goal total |
| Rounds.FirstMaxIndex | pages/Visao_Geral_das_Ligas.py:85 | the position of the first row with the largest total |
| Rounds.MostGoalsRound | pages/Visao_Geral_das_Ligas.py:85-86 | none iff there are no rounds, otherwise the stage of the first row reaching the largest total |
| Standings.RowFor | pages/Visao_Geral_das_Ligas.py:113-130 | the row carries its team, and its losses (the residual) are never negative |
| Standings.BuildStandings | pages/Visao_Geral_das_Ligas.py:110-146 | the loop and sort produce the rows of the league's teams in championship order |
| Standings.RanksAtLeastIsTotalPreorder | pages/Visao_Geral_das_Ligas.py:146 | the (points, goal difference, goals scored) descending order is total and transitive |
| Standings.TableRowsConsistent | pages/Visao_Geral_das_Ligas.py:113-130 | every row has matches = home + away appearances, wins + draws + losses = matches with losses ≥ 0, goal difference = scored − conceded, points = 3·wins + draws |
| Standings.TableTeamsDistinct | pages/Visao_Geral_das_Ligas.py:107-112 | one row per team of the league, no team twice |
| Standings.TableRowsAreTeams | pages/Visao_Geral_das_Ligas.py:112-142 | a row is in the table iff it is the row computed for one of the league's teams |
| Standings.TableSorted | pages/Visao_Geral_das_Ligas.py:146 | the table is in descending (points, goal difference, goals scored) order |
| Standings.EveryTeamHasARow | pages/Visao_Geral_das_Ligas.py:107 | both clubs of every match have their row in the table |
| Standings.TableBalances | pages/Visao_Geral_das_Ligas.py:126-129 | over the table, goals scored = goals conceded = the league's goals, goal differences sum to 0, and matches played sum to twice the matches |
| Standings.RowAgreesWithStats | pages/Visao_Geral_das_Ligas.py:113-127 | when no match has one club on both sides, a standings row agrees field by field with the comparison page's tallies |
| Thresholds.CountAbove | pages/Visao_Geral_das_Ligas.py:156 | a threshold count never exceeds the number of matches |
| Thresholds.HalfThresholdIsWholeCount | pages/Visao_Geral_das_Ligas.py:155-156 | more than k + 0.5 goals counts exactly the matches with at least k + 1 goals |
| Thresholds.CountAboveAntitone | pages/Visao_Geral_das_Ligas.py:156 | a higher threshold never counts more matches |
| Thresholds.LeagueCountsShape | pages/Visao_Geral_das_Ligas.py:155-156 | four counts, count i = matches with more than i goals, each at most the matches, non-increasing from 0.5 to 3.5 |
| Thresholds.LeaguePercentsShape | pages/Visao_Geral_das_Ligas.py:165-166 | the league percentage is 0 without matches, otherwise the exact share, between 0 and 100 |
| Thresholds.EntryFor | pages/Visao_Geral_das_Ligas.py:232-239 | a ranking row's count is at most the club's matches and its percentage is the exact share, in [0,100] |
| Thresholds.Ranking | pages/Visao_Geral_das_Ligas.py:224-239 | the nested loop builds, team by team and threshold by threshold, the ranking rows of the specification |
| Thresholds.RankingEntries | pages/Visao_Geral_das_Ligas.py:226-239 | a row is in the ranking iff it is the row of a league team with matches and one of the four thresholds |
| Thresholds.RankingLength | pages/Visao_Geral_das_Ligas.py:226-231 | every league team has matches, so the ranking has four rows per team |
| Thresholds.MoreAboveIsTotalPreorder | pages/Visao_Geral_das_Ligas.py:248-249 | the count order is total and transitive |
| Thresholds.Top5Spec | pages/Visao_Geral_das_Ligas.py:246-250 | at most five rows (fewer only when fewer exist), all of that threshold and from the ranking, descending by count, and no left-out row of the threshold has a larger count than a kept one |
| PlayerProfile.ContainsSpec | pages/Raio-X_de_jogadores.py:46 | `Contains` holds iff the query occurs at some position of the name |
| PlayerProfile.SearchSpec | pages/Raio-X_de_jogadores.py:45-49 | no search without a query; the results are exactly the players whose name contains the query ignoring ASCII case; "not found" iff no player matches |
| PlayerProfile.CaseBlind | pages/Raio-X_de_jogadores.py:46 | queries equal up to ASCII case find the same players |
| PlayerProfile.OptionsSpec | pages/Raio-X_de_jogadores.py:51 | the offered names are the names found, each once |
| PlayerProfile.SelectedId | pages/Raio-X_de_jogadores.py:52 | the id of the first result carrying the selected name |
| PlayerProfile.LexLeTotal | pages/Raio-X_de_jogadores.py:56 | any two dates compare |
| PlayerProfile.LexLeTransitive | pages/Raio-X_de_jogadores.py:56 | date order is transitive |
| PlayerProfile.LexLeAntisymmetric | pages/Raio-X_de_jogadores.py:56 | dates that compare both ways are equal |
| PlayerProfile.Latest | pages/Raio-X_de_jogadores.py:56 | the chosen row is one of the rows and no row has a later date |
| PlayerProfile.LatestSnapshot | pages/Raio-X_de_jogadores.py:54-56 | none iff the player has no attribute rows, otherwise one of the player's rows with no later date |
| PlayerProfile.Classify | pages/Raio-X_de_jogadores.py:102-111 | the chosen style's rule holds and no rule earlier in the list holds |
| PlayerProfile.ClassifyIsFirstFit | pages/Raio-X_de_jogadores.py:102-111 | the style whose rule is the first to hold is the one chosen |
| PlayerProfile.StyleFromColumns | pages/Raio-X_de_jogadores.py:59-66 | on raw columns, with strict thresholds: attacker iff finishing > 80 and dribbling > 75; creative midfielder iff not attacker and short passing > 75 and the snapshot's vision > 70; then solid defender (marking, strength) and fast winger (sprint speed, dribbling) in that priority |
| PlayerProfile.Analyse | pages/Raio-X_de_jogadores.py:52-111 | the displayed attributes are the projection of the chosen snapshot of the selected id, and the style is the decision list on them with the snapshot's vision |
| PlayerProfile.AnalyseSpec | pages/Raio-X_de_jogadores.py:52-56 | no analysis iff the selected player has no attribute rows; otherwise the id belongs to a result with the selected name and the snapshot is one of its latest rows |

## Left out

- Loading and display are not modelled. This covers:
  - the SQL queries and the `merge` steps that turn team ids into names;
  - the league and season filters: the match list is taken as already filtered;
  - every Streamlit widget, the Plotly charts, and the markdown/f-string texts;
  - the comparison page's card-display loop (`pages/Comparativo_entre_dois_times.py:192-203`);
  - `Home.py`, which is a static welcome page.
- Common.Percent: the page's `round(..., 1)` is left out, so the share is the exact rational. Likewise, `Thresholds.EntryFor` does not model the `:.2f` formatting, and `Rounds.LeagueAverage` does not model `round(..., 2)`.
- Floating-point and `int64` arithmetic are not modelled; counts and sums are unbounded integers. The goal thresholds are exact reals compared with whole goal totals.
- `fillna("Unknown")` and missing values in general: names are always strings, and attribute values are always integers. A missing attribute (NaN), which would make each comparison false, is not modelled.
- PlayerProfile.NameMatches: a plain substring test that lower-cases only ASCII letters. `str.contains` reads the query as a regular expression and folds Unicode case; neither is modelled.
- Matches.Teams: `pd.unique(... .ravel("K"))` is modelled as row-by-row first appearance (home, away, home, away, ...). NumPy's memory order may produce a different order. This order only decides the order of rows that tie completely.
- Ordering.SortDesc: its lemmas state the order by rank and the permutation, but not where rows that tie completely end up. The multi-key standings sort of pandas keeps such rows in input order; the model does not state that. The single-key sorts (the top-5 lists, `pages/Visao_Geral_das_Ligas.py:248`, and the snapshot dates, `pages/Raio-X_de_jogadores.py:56`) use pandas' default sort, which is not stable, so their order on full ties is not modelled.
- Standings.BuildStandings: on an empty match list (no season selected) the page builds a frame without columns and its sort by "Pts" raises an error; the model returns an empty table. Thresholds.Top5 likewise returns an empty list where the page's selection of the "Faixa de Gols" column of an empty ranking frame raises an error.
- TeamComparison.RelativeDifference: requires a non-zero denominator whenever the values differ. The page divides without a guard, so in higher-is-better mode a losing value of 0 divides by zero, and the model does not say what the page then shows. `TeamComparison.Compare` carries the same requirement.
- TeamComparison.Stats: a club without matches gets all-zero tallies. The page applies row lambdas to an empty frame, which pandas may not reduce to scalar zeros; that behaviour is not modelled.
- The sorted club lists offered by the two selectboxes of the comparison page are not modelled; the two clubs are an input `Selection`.
- The in-place column writes of the overview page (`total_gols`, "Total Gols", "Média Gols por Jogo" and the `reset_index`) are modelled as derived values of a match (`TotalGoals`) or of a round (`GoalsOf`).
- The chart-only `df_barras` percentages (`pages/Visao_Geral_das_Ligas.py:158-161`), which divide without a guard, are not modelled.
- The top-5 lists filter the ranking by the label `">f gols"`. The model filters by the threshold itself, which is equivalent for the four distinct thresholds.
- On the player page, the warning about missing attributes is attached to the `if` about an empty query (`pages/Raio-X_de_jogadores.py:115`). Only the outcomes are modelled: `Search` gives `NoQuery`, and `Analyse` gives `None` for a player without rows. The warning text is not.
