/** The player page: the case-insensitive name search, the choice of the player's
    latest attribute snapshot, the six displayed attributes, and the playing-style
    decision list. */
module PlayerProfile {
  import opened Common

  datatype Player = Player(id: int, name: string)

  /** One dated attribute row of a player, reduced to the columns the page reads. */
  datatype Snapshot = Snapshot(playerId: int, date: string, shortPassing: int, finishing: int,
                               dribbling: int, marking: int, strength: int, sprintSpeed: int,
                               vision: int)

  /** The six attributes the page displays. */
  datatype Attributes = Attributes(passing: int, shooting: int, dribbling: int,
                                   defending: int, physical: int, pace: int)

  // ---------------------------------------------------------------- name search

  /** ASCII lower case: 'A'..'Z' become 'a'..'z', every other character is kept. */
  function LowerChar(c: char): (d: char)
    ensures 'A' <= c <= 'Z' ==> 'a' <= d <= 'z' && d as int - c as int == 32
    ensures !('A' <= c <= 'Z') ==> d == c
  {
    if 'A' <= c <= 'Z' then (c as int + 32) as char else c
  }

  function Lower(s: string): (r: string)
    ensures |r| == |s|
  {
    if s == [] then [] else [LowerChar(s[0])] + Lower(s[1..])
  }

  lemma {:induction false} LowerAt(s: string)
    ensures forall i :: 0 <= i < |s| ==> Lower(s)[i] == LowerChar(s[i])
  {
    if s != [] {
      LowerAt(s[1..]);
      forall i | 1 <= i < |s| ensures Lower(s)[i] == LowerChar(s[i]) {
        assert s[1..][i - 1] == s[i];
      }
    }
  }

  /** `s` contains `p` as a contiguous piece. */
  function Contains(s: string, p: string): bool
    decreases |s|
  {
    if |p| > |s| then false
    else s[..|p|] == p || Contains(s[1..], p)
  }

  ghost predicate OccursAt(s: string, p: string, i: int)
  {
    0 <= i && i + |p| <= |s| && s[i..i + |p|] == p
  }

  /** `Contains` holds exactly when `p` occurs at some position of `s`. */
  lemma {:induction false} ContainsSpec(s: string, p: string)
    ensures Contains(s, p) <==> exists i :: OccursAt(s, p, i)
    decreases |s|
  {
    if |p| > |s| {
    } else if s[..|p|] == p {
      assert OccursAt(s, p, 0);
    } else {
      ContainsSpec(s[1..], p);
      if exists i :: OccursAt(s[1..], p, i) {
        var i :| OccursAt(s[1..], p, i);
        assert s[1..][i..i + |p|] == s[i + 1..i + 1 + |p|];
        assert OccursAt(s, p, i + 1);
      }
      if exists i :: OccursAt(s, p, i) {
        var i :| OccursAt(s, p, i);
        assert i != 0;
        assert s[1..][i - 1..i - 1 + |p|] == s[i..i + |p|];
        assert OccursAt(s[1..], p, i - 1);
      }
    }
  }

  /** The name matches the query, ignoring the case of ASCII letters. */
  predicate NameMatches(name: string, query: string)
  {
    Contains(Lower(name), Lower(query))
  }

  function Filter(players: seq<Player>, query: string): (r: seq<Player>)
    ensures |r| <= |players|
  {
    if players == [] then []
    else if NameMatches(players[0].name, query) then [players[0]] + Filter(players[1..], query)
    else Filter(players[1..], query)
  }

  lemma {:induction false} FilterMembers(players: seq<Player>, query: string)
    ensures forall p :: p in Filter(players, query) <==> p in players && NameMatches(p.name, query)
  {
    if players != [] {
      FilterMembers(players[1..], query);
      assert players == [players[0]] + players[1..];
    }
  }

  /** No search without a query; otherwise the players found, or none. */
  datatype SearchOutcome = NoQuery | NotFound | Found(results: seq<Player>)

  function Search(players: seq<Player>, query: string): SearchOutcome
  {
    if query == [] then NoQuery
    else
      var results := Filter(players, query);
      if results == [] then NotFound else Found(results)
  }

  /** Every player found matches the query, every matching player is found, and
      "not found" means that no player matches. */
  lemma SearchSpec(players: seq<Player>, query: string)
    ensures Search(players, query) == NoQuery <==> query == []
    ensures Search(players, query).Found? ==>
      forall p :: p in Search(players, query).results <==> p in players && NameMatches(p.name, query)
    ensures Search(players, query) == NotFound <==>
      query != [] && forall p :: p in players ==> !NameMatches(p.name, query)
  {
    FilterMembers(players, query);
    if query != [] && Filter(players, query) != [] {
      assert Filter(players, query)[0] in Filter(players, query);
    }
  }

  /** The matching is case-blind: upper-casing a letter of the query changes nothing. */
  lemma CaseBlind(name: string, q1: string, q2: string)
    requires Lower(q1) == Lower(q2)
    ensures NameMatches(name, q1) == NameMatches(name, q2)
  {
  }

  // ---------------------------------------------------------------- selection

  function Names(players: seq<Player>): seq<string>
  {
    if players == [] then [] else [players[0].name] + Names(players[1..])
  }

  lemma {:induction false} NamesMembers(players: seq<Player>)
    ensures forall n :: n in Names(players) <==> exists p :: p in players && p.name == n
  {
    if players != [] {
      NamesMembers(players[1..]);
      assert players == [players[0]] + players[1..];
    }
  }

  /** The names offered for selection: each name found, once, in order. */
  function Options(results: seq<Player>): (o: seq<string>)
    ensures forall n :: n in o <==> n in Names(results)
  {
    UniqueSpec(Names(results));
    Unique(Names(results))
  }

  lemma OptionsSpec(results: seq<Player>)
    ensures NoDuplicates(Options(results))
    ensures forall n :: n in Options(results) <==> exists p :: p in results && p.name == n
  {
    UniqueSpec(Names(results));
    NamesMembers(results);
  }

  /** The id of the first result carrying the selected name. */
  function SelectedId(results: seq<Player>, selected: string): (id: int)
    requires selected in Names(results)
    ensures exists k :: (0 <= k < |results| && results[k].name == selected && results[k].id == id &&
      forall j :: 0 <= j < k ==> results[j].name != selected)
  {
    if results[0].name == selected then results[0].id
    else
      var id := SelectedId(results[1..], selected);
      var k :| 0 <= k < |results[1..]| && results[1..][k].name == selected && results[1..][k].id == id &&
        forall j :: 0 <= j < k ==> results[1..][j].name != selected;
      assert results[k + 1] == results[1..][k];
      assert forall j :: 1 <= j < k + 1 ==> results[j] == results[1..][j - 1];
      id
  }

  // ---------------------------------------------------------------- latest snapshot

  /** Text order on dates, character by character; a prefix comes first. */
  predicate LexLe(a: string, b: string)
  {
    a == [] || (b != [] && (a[0] < b[0] || (a[0] == b[0] && LexLe(a[1..], b[1..]))))
  }

  lemma {:induction false} LexLeTotal(a: string, b: string)
    ensures LexLe(a, b) || LexLe(b, a)
  {
    if a != [] && b != [] && a[0] == b[0] {
      LexLeTotal(a[1..], b[1..]);
    }
  }

  lemma {:induction false} LexLeTransitive(a: string, b: string, c: string)
    requires LexLe(a, b) && LexLe(b, c)
    ensures LexLe(a, c)
  {
    if a != [] && a[0] == b[0] && b[0] == c[0] {
      LexLeTransitive(a[1..], b[1..], c[1..]);
    }
  }

  lemma {:induction false} LexLeAntisymmetric(a: string, b: string)
    requires LexLe(a, b) && LexLe(b, a)
    ensures a == b
  {
    if a != [] && b != [] {
      LexLeAntisymmetric(a[1..], b[1..]);
      assert a == [a[0]] + a[1..] && b == [b[0]] + b[1..];
    }
  }

  /** The first row with the latest date. */
  function Latest(rows: seq<Snapshot>): (r: Snapshot)
    requires rows != []
    ensures r in rows
    ensures forall x :: x in rows ==> LexLe(x.date, r.date)
  {
    if |rows| == 1 then
      LexLeTotal(rows[0].date, rows[0].date);
      rows[0]
    else
      var rest := Latest(rows[1..]);
      LexLeTotal(rest.date, rows[0].date);
      assert forall x :: x in rows ==> x == rows[0] || x in rows[1..];
      if LexLe(rest.date, rows[0].date) then
        assert forall x :: x in rows[1..] ==> LexLe(x.date, rest.date) && LexLe(rest.date, rows[0].date);
        forall x | x in rows[1..] ensures LexLe(x.date, rows[0].date) {
          LexLeTransitive(x.date, rest.date, rows[0].date);
        }
        LexLeTotal(rows[0].date, rows[0].date);
        rows[0]
      else
        rest
  }

  /** The attribute rows of one player, in table order. */
  function RowsOf(snapshots: seq<Snapshot>, id: int): (r: seq<Snapshot>)
    ensures |r| <= |snapshots|
  {
    if snapshots == [] then []
    else if snapshots[0].playerId == id then [snapshots[0]] + RowsOf(snapshots[1..], id)
    else RowsOf(snapshots[1..], id)
  }

  lemma {:induction false} RowsOfMembers(snapshots: seq<Snapshot>, id: int)
    ensures forall s :: s in RowsOf(snapshots, id) <==> s in snapshots && s.playerId == id
  {
    if snapshots != [] {
      RowsOfMembers(snapshots[1..], id);
      assert snapshots == [snapshots[0]] + snapshots[1..];
    }
  }

  /** The snapshot the page shows: none when the player has no attribute rows,
      otherwise one of the player's rows with no later date. */
  function LatestSnapshot(snapshots: seq<Snapshot>, id: int): (r: Option<Snapshot>)
    ensures r.None? <==> forall s :: s in snapshots ==> s.playerId != id
    ensures r.Some? ==> (r.value in snapshots && r.value.playerId == id &&
      forall s :: s in snapshots && s.playerId == id ==> LexLe(s.date, r.value.date))
  {
    var rows := RowsOf(snapshots, id);
    RowsOfMembers(snapshots, id);
    if rows == [] then None
    else
      assert rows[0] in rows;
      Some(Latest(rows))
  }

  // ---------------------------------------------------------------- attributes and style

  /** The six displayed attributes, each read from its fixed column of the snapshot. */
  function Project(s: Snapshot): Attributes
  {
    Attributes(s.shortPassing, s.finishing, s.dribbling, s.marking, s.strength, s.sprintSpeed)
  }

  datatype Style = Attacker | CreativeMidfielder | SolidDefender | FastWinger | Versatile

  /** The place of each style in the decision list. */
  function Priority(s: Style): nat
  {
    match s
    case Attacker => 0
    case CreativeMidfielder => 1
    case SolidDefender => 2
    case FastWinger => 3
    case Versatile => 4
  }

  /** The condition of each rule of the list; the last rule always applies. Vision is
      read from the snapshot, not from the six displayed attributes. */
  predicate Fits(s: Style, a: Attributes, vision: int)
  {
    match s
    case Attacker => a.shooting > 80 && a.dribbling > 75
    case CreativeMidfielder => a.passing > 75 && vision > 70
    case SolidDefender => a.defending > 75 && a.physical > 75
    case FastWinger => a.pace > 80 && a.dribbling > 70
    case Versatile => true
  }

  /** The decision list: the first rule whose condition holds. */
  function Classify(a: Attributes, vision: int): (r: Style)
    ensures Fits(r, a, vision)
    ensures forall s :: Priority(s) < Priority(r) ==> !Fits(s, a, vision)
  {
    if a.shooting > 80 && a.dribbling > 75 then Attacker
    else if a.passing > 75 && vision > 70 then CreativeMidfielder
    else if a.defending > 75 && a.physical > 75 then SolidDefender
    else if a.pace > 80 && a.dribbling > 70 then FastWinger
    else Versatile
  }

  /** Exactly one style is chosen: the fitting style that comes first in the list. */
  lemma ClassifyIsFirstFit(a: Attributes, vision: int, s: Style)
    requires Fits(s, a, vision)
    requires forall t :: Priority(t) < Priority(s) ==> !Fits(t, a, vision)
    ensures Classify(a, vision) == s
  {
    var r := Classify(a, vision);
    assert Priority(r) == Priority(s);
  }

  /** The style of a snapshot in terms of its raw columns, with strict thresholds. */
  lemma StyleFromColumns(s: Snapshot)
    ensures Classify(Project(s), s.vision) == Attacker <==> s.finishing > 80 && s.dribbling > 75
    ensures Classify(Project(s), s.vision) == CreativeMidfielder <==>
      !(s.finishing > 80 && s.dribbling > 75) && s.shortPassing > 75 && s.vision > 70
    ensures Classify(Project(s), s.vision) == SolidDefender <==>
      !(s.finishing > 80 && s.dribbling > 75) && !(s.shortPassing > 75 && s.vision > 70) &&
      s.marking > 75 && s.strength > 75
    ensures Classify(Project(s), s.vision) == FastWinger <==>
      !(s.finishing > 80 && s.dribbling > 75) && !(s.shortPassing > 75 && s.vision > 70) &&
      !(s.marking > 75 && s.strength > 75) && s.sprintSpeed > 80 && s.dribbling > 70
  {
  }

  // ---------------------------------------------------------------- the page

  datatype Analysis = Analysis(playerId: int, snapshot: Snapshot, attributes: Attributes, style: Style)

  /** The analysis shown for the selected name: the first matching player's id,
      its latest snapshot, the six attributes and the style; none without rows. */
  function Analyse(results: seq<Player>, selected: string, snapshots: seq<Snapshot>): (r: Option<Analysis>)
    requires selected in Options(results)
    ensures r.Some? ==> (r.value.snapshot.playerId == r.value.playerId &&
      r.value.attributes == Project(r.value.snapshot) &&
      r.value.style == Classify(r.value.attributes, r.value.snapshot.vision))
  {
    OptionsSpec(results);
    NamesMembers(results);
    var id := SelectedId(results, selected);
    match LatestSnapshot(snapshots, id)
    case None => None
    case Some(s) => Some(Analysis(id, s, Project(s), Classify(Project(s), s.vision)))
  }

  /** The analysis belongs to a player found under the selected name and uses one
      of that player's latest rows. */
  lemma AnalyseSpec(results: seq<Player>, selected: string, snapshots: seq<Snapshot>)
    requires selected in Options(results)
    ensures Analyse(results, selected, snapshots).None? <==>
      forall s :: s in snapshots ==> s.playerId != SelectedId(results, selected)
    ensures Analyse(results, selected, snapshots).Some? ==>
      var a := Analyse(results, selected, snapshots).value;
      (exists p :: p in results && p.name == selected && p.id == a.playerId) &&
      a.snapshot in snapshots &&
      forall s :: s in snapshots && s.playerId == a.playerId ==> LexLe(s.date, a.snapshot.date)
  {
    OptionsSpec(results);
    NamesMembers(results);
    var id := SelectedId(results, selected);
    var k :| 0 <= k < |results| && results[k].name == selected && results[k].id == id &&
      forall j :: 0 <= j < k ==> results[j].name != selected;
    assert results[k] in results;
  }
}
