/** The database processor: turns the loader's teams and leagues into rows
    for the teams, leagues and matches tables. The SQLite connection is
    abstracted: inserting is appending a row to a sink, and a connection is
    only recorded as present or absent. */
module Db {
  import opened Model
  import opened Json

  // ---------------------------------------------------------------------
  // Match views: a match as the insert loop sees it, before team names
  // are resolved
  // ---------------------------------------------------------------------

  datatype MatchView = MatchView(
    date: Date, leagueId: int, team1: string, team2: string,
    stage: Option<string>, round: string, team1Score: Option<int>, team2Score: Option<int>)

  /** A row of the matches table (its auto-assigned id is the database's). */
  datatype MatchRow = MatchRow(
    date: Date, leagueId: int, team1Id: int, team2Id: int,
    stage: Option<string>, round: string, team1Score: Option<int>, team2Score: Option<int>)

  /** No match of the round makes a score accessor panic. */
  predicate RoundReadable(r: LeagueRound) {
    forall j :: 0 <= j < |r.matches| ==> r.matches[j].ScoresReadable()
  }

  /** No match of the league makes a score accessor panic. */
  predicate LeagueReadable(l: LeagueJsonFormat) {
    match l
    case OldFormat(o) => forall i :: 0 <= i < |o.rounds| ==> RoundReadable(o.rounds[i])
    case NewFormat(n) => forall j :: 0 <= j < |n.matches| ==> n.matches[j].ScoresReadable()
  }

  predicate AllReadable(leagues: seq<LeagueJsonFormat>) {
    forall i :: 0 <= i < |leagues| ==> LeagueReadable(leagues[i])
  }

  /** An old-schema match: no stage, the enclosing round's name as round. */
  function OldMatchView(leagueId: int, roundName: string, m: OldLeagueMatch): MatchView
    requires m.ScoresReadable()
  {
    MatchView(m.MatchDate(), leagueId, m.team1, m.team2, None, roundName, m.Team1Score(), m.Team2Score())
  }

  /** A new-schema match: its own stage and round. */
  function NewMatchView(leagueId: int, m: NewLeagueMatch): MatchView
    requires m.ScoresReadable()
  {
    MatchView(m.MatchDate(), leagueId, m.Team1Name(), m.Team2Name(), m.stage, m.round, m.Team1Score(), m.Team2Score())
  }

  function RoundViews(leagueId: int, r: LeagueRound): seq<MatchView>
    requires RoundReadable(r)
  {
    seq(|r.matches|, j requires 0 <= j < |r.matches| => OldMatchView(leagueId, r.name, r.matches[j]))
  }

  /** The views of each round, one sequence per round. */
  function PerRound(leagueId: int, rounds: seq<LeagueRound>): (rv: seq<seq<MatchView>>)
    requires forall i :: 0 <= i < |rounds| ==> RoundReadable(rounds[i])
    ensures |rv| == |rounds|
    ensures forall i :: 0 <= i < |rounds| ==> rv[i] == RoundViews(leagueId, rounds[i])
  {
    seq(|rounds|, i requires 0 <= i < |rounds| => RoundViews(leagueId, rounds[i]))
  }

  /** The matches of a sequence of rounds, round by round. */
  function RoundsViews(leagueId: int, rounds: seq<LeagueRound>): seq<MatchView>
    requires forall i :: 0 <= i < |rounds| ==> RoundReadable(rounds[i])
  {
    Flatten(PerRound(leagueId, rounds))
  }

  /** The matches of a league in loop order: round by round, match by match. */
  function LeagueViews(l: LeagueJsonFormat): seq<MatchView>
    requires LeagueReadable(l)
  {
    match l
    case OldFormat(o) => RoundsViews(o.id, o.rounds)
    case NewFormat(n) =>
      seq(|n.matches|, j requires 0 <= j < |n.matches| => NewMatchView(n.id, n.matches[j]))
  }

  // ---------------------------------------------------------------------
  // Resolution and match rows
  // ---------------------------------------------------------------------

  /** A view becomes a row when both team names resolve; otherwise it is skipped. */
  function Resolve(v: MatchView, teams: seq<Team>): Option<MatchRow> {
    var id1 := TeamIdFromName(teams, v.team1);
    var id2 := TeamIdFromName(teams, v.team2);
    if id1.None? then None
    else if id2.None? then None
    else Some(MatchRow(v.date, v.leagueId, id1.value, id2.value, v.stage, v.round, v.team1Score, v.team2Score))
  }

  function ResolveAll(vs: seq<MatchView>, teams: seq<Team>): seq<MatchRow>
    decreases |vs|
  {
    if |vs| == 0 then []
    else
      var last := Resolve(vs[|vs| - 1], teams);
      ResolveAll(vs[..|vs| - 1], teams) + (if last.Some? then [last.value] else [])
  }

  /** The rows one league contributes. */
  function LeagueMatchRows(l: LeagueJsonFormat, teams: seq<Team>): seq<MatchRow>
    requires LeagueReadable(l)
  {
    ResolveAll(LeagueViews(l), teams)
  }

  /** The rows of each league, one sequence per league. */
  function PerLeague(leagues: seq<LeagueJsonFormat>, teams: seq<Team>): (s: seq<seq<MatchRow>>)
    requires AllReadable(leagues)
    ensures |s| == |leagues|
    ensures forall i :: 0 <= i < |leagues| ==> s[i] == LeagueMatchRows(leagues[i], teams)
  {
    seq(|leagues|, i requires 0 <= i < |leagues| => LeagueMatchRows(leagues[i], teams))
  }

  /** insert_matches_from_loader: the rows of every league, league by league. */
  function MatchRows(leagues: seq<LeagueJsonFormat>, teams: seq<Team>): seq<MatchRow>
    requires AllReadable(leagues)
  {
    Flatten(PerLeague(leagues, teams))
  }

  /** A view yields a row exactly when both of its team names are
      registered; the row keeps the view's date, league id, stage, round and
      scores unchanged and carries the ids the registry gives the names. */
  lemma ResolveIffBothNamesKnown(v: MatchView, teams: seq<Team>)
    ensures Resolve(v, teams).Some? <==> HasName(teams, v.team1) && HasName(teams, v.team2)
    ensures Resolve(v, teams).Some? ==>
      var row := Resolve(v, teams).value;
      && row.date == v.date && row.leagueId == v.leagueId
      && row.stage == v.stage && row.round == v.round
      && row.team1Score == v.team1Score && row.team2Score == v.team2Score
      && TeamIdFromName(teams, v.team1) == Some(row.team1Id)
      && TeamIdFromName(teams, v.team2) == Some(row.team2Id)
  {
  }

  /** Resolution runs view by view: order is kept. */
  lemma {:induction false} ResolveAllAppend(a: seq<MatchView>, b: seq<MatchView>, teams: seq<Team>)
    ensures ResolveAll(a + b, teams) == ResolveAll(a, teams) + ResolveAll(b, teams)
    decreases |b|
  {
    if |b| == 0 {
      assert a + b == a;
    } else {
      assert (a + b)[..|a + b| - 1] == a + b[..|b| - 1];
      ResolveAllAppend(a, b[..|b| - 1], teams);
    }
  }

  /** A row is emitted exactly when some view resolves to it. */
  lemma {:induction false} ResolveAllMembership(vs: seq<MatchView>, teams: seq<Team>, row: MatchRow)
    ensures row in ResolveAll(vs, teams) <==> exists p :: 0 <= p < |vs| && Resolve(vs[p], teams) == Some(row)
    decreases |vs|
  {
    if |vs| > 0 {
      var init := vs[..|vs| - 1];
      ResolveAllMembership(init, teams, row);
      assert forall p :: 0 <= p < |init| ==> init[p] == vs[p];
    }
  }

  /** When every view resolves, nothing is dropped: one row per view, in order. */
  lemma {:induction false} ResolveAllComplete(vs: seq<MatchView>, teams: seq<Team>)
    requires forall p :: 0 <= p < |vs| ==> Resolve(vs[p], teams).Some?
    ensures |ResolveAll(vs, teams)| == |vs|
    ensures forall p :: 0 <= p < |vs| ==> Some(ResolveAll(vs, teams)[p]) == Resolve(vs[p], teams)
    decreases |vs|
  {
    if |vs| > 0 {
      var init := vs[..|vs| - 1];
      assert forall p :: 0 <= p < |init| ==> init[p] == vs[p];
      ResolveAllComplete(init, teams);
      var r := ResolveAll(vs, teams);
      var r' := ResolveAll(init, teams);
      assert r == r' + [Resolve(vs[|vs| - 1], teams).value];
      forall p | 0 <= p < |vs| ensures Some(r[p]) == Resolve(vs[p], teams) {
        if p < |init| {
          assert r[p] == r'[p];
        }
      }
    }
  }

  /** The row a source match gives in the stated stage and round. */
  predicate RowOf(row: MatchRow, leagueId: int, stage: Option<string>, round: string, m: OldLeagueMatch, teams: seq<Team>)
    requires m.ScoresReadable()
  {
    && row.date == m.date && row.leagueId == leagueId
    && TeamIdFromName(teams, m.team1) == Some(row.team1Id)
    && TeamIdFromName(teams, m.team2) == Some(row.team2Id)
    && row.stage == stage && row.round == round
    && row.team1Score == m.Team1Score() && row.team2Score == m.Team2Score()
  }

  /** Every row of an old-schema league comes from some match of some round:
      it has no stage, the round's name as round, the league's id, and the
      match's date and scores. */
  lemma OldLeagueRowsSound(o: OldLeagueFormat, teams: seq<Team>, row: MatchRow)
    requires LeagueReadable(OldFormat(o))
    requires row in LeagueMatchRows(OldFormat(o), teams)
    ensures row.stage == None && row.leagueId == o.id
    ensures exists i, j :: (0 <= i < |o.rounds| && 0 <= j < |o.rounds[i].matches| &&
      RowOf(row, o.id, None, o.rounds[i].name, o.rounds[i].matches[j], teams))
  {
    var rv := PerRound(o.id, o.rounds);
    var vs := LeagueViews(OldFormat(o));
    assert vs == Flatten(rv);
    ResolveAllMembership(vs, teams, row);
    var p :| 0 <= p < |vs| && Resolve(vs[p], teams) == Some(row);
    FlattenMembership(rv, vs[p]);
    var i :| 0 <= i < |rv| && vs[p] in rv[i];
    var j :| 0 <= j < |rv[i]| && rv[i][j] == vs[p];
    assert RowOf(row, o.id, None, o.rounds[i].name, o.rounds[i].matches[j], teams);
  }

  /** Every match of an old-schema league whose two team names are registered
      gives a row. */
  lemma OldLeagueRowsComplete(o: OldLeagueFormat, teams: seq<Team>, i: int, j: int)
    requires LeagueReadable(OldFormat(o))
    requires 0 <= i < |o.rounds| && 0 <= j < |o.rounds[i].matches|
    requires HasName(teams, o.rounds[i].matches[j].team1) && HasName(teams, o.rounds[i].matches[j].team2)
    ensures exists row :: (row in LeagueMatchRows(OldFormat(o), teams) &&
      RowOf(row, o.id, None, o.rounds[i].name, o.rounds[i].matches[j], teams))
  {
    var rv := PerRound(o.id, o.rounds);
    var vs := LeagueViews(OldFormat(o));
    assert vs == Flatten(rv);
    var v := rv[i][j];
    FlattenMembership(rv, v);
    var p :| 0 <= p < |vs| && vs[p] == v;
    var row := Resolve(v, teams).value;
    ResolveAllMembership(vs, teams, row);
    assert RowOf(row, o.id, None, o.rounds[i].name, o.rounds[i].matches[j], teams);
  }

  /** Every row of a new-schema league comes from one of its matches and takes
      stage and round from that match. */
  lemma NewLeagueRowsSound(n: NewLeagueFormat, teams: seq<Team>, row: MatchRow)
    requires LeagueReadable(NewFormat(n))
    requires row in LeagueMatchRows(NewFormat(n), teams)
    ensures row.leagueId == n.id
    ensures exists j :: (0 <= j < |n.matches| &&
      RowOf(row, n.id, n.matches[j].stage, n.matches[j].round, n.matches[j].matchInfo, teams))
  {
    var vs := LeagueViews(NewFormat(n));
    ResolveAllMembership(vs, teams, row);
    var j :| 0 <= j < |vs| && Resolve(vs[j], teams) == Some(row);
    assert RowOf(row, n.id, n.matches[j].stage, n.matches[j].round, n.matches[j].matchInfo, teams);
  }

  /** Every match of a new-schema league whose two team names are registered
      gives a row. */
  lemma NewLeagueRowsComplete(n: NewLeagueFormat, teams: seq<Team>, j: int)
    requires LeagueReadable(NewFormat(n))
    requires 0 <= j < |n.matches|
    requires HasName(teams, n.matches[j].matchInfo.team1) && HasName(teams, n.matches[j].matchInfo.team2)
    ensures exists row :: (row in LeagueMatchRows(NewFormat(n), teams) &&
      RowOf(row, n.id, n.matches[j].stage, n.matches[j].round, n.matches[j].matchInfo, teams))
  {
    var vs := LeagueViews(NewFormat(n));
    var row := Resolve(vs[j], teams).value;
    ResolveAllMembership(vs, teams, row);
    assert RowOf(row, n.id, n.matches[j].stage, n.matches[j].round, n.matches[j].matchInfo, teams);
  }

  /** With every name registered, an old-schema league of R rounds of k
      matches each gives R * k rows, in round order and, within a round, in
      match order. */
  lemma OldLeagueRowCount(o: OldLeagueFormat, teams: seq<Team>, k: nat)
    requires LeagueReadable(OldFormat(o))
    requires forall i :: 0 <= i < |o.rounds| ==> |o.rounds[i].matches| == k
    requires forall i, j :: 0 <= i < |o.rounds| && 0 <= j < |o.rounds[i].matches| ==>
      HasName(teams, o.rounds[i].matches[j].team1) && HasName(teams, o.rounds[i].matches[j].team2)
    ensures |LeagueMatchRows(OldFormat(o), teams)| == |o.rounds| * k
  {
    var rv := PerRound(o.id, o.rounds);
    var vs := LeagueViews(OldFormat(o));
    assert vs == Flatten(rv);
    FlattenUniformLength(rv, k);
    forall p | 0 <= p < |vs| ensures Resolve(vs[p], teams).Some? {
      FlattenMembership(rv, vs[p]);
      var i :| 0 <= i < |rv| && vs[p] in rv[i];
      var j :| 0 <= j < |rv[i]| && rv[i][j] == vs[p];
    }
    ResolveAllComplete(vs, teams);
  }

  /** The rows of an old-schema league follow its rounds: those of rounds
      a + b are those of a, then those of b. */
  lemma OldLeagueRoundOrder(o: OldLeagueFormat, a: seq<LeagueRound>, b: seq<LeagueRound>, teams: seq<Team>)
    requires o.rounds == a + b
    requires LeagueReadable(OldFormat(o))
    ensures LeagueReadable(OldFormat(o.(rounds := a))) && LeagueReadable(OldFormat(o.(rounds := b)))
    ensures LeagueMatchRows(OldFormat(o), teams) ==
      LeagueMatchRows(OldFormat(o.(rounds := a)), teams) + LeagueMatchRows(OldFormat(o.(rounds := b)), teams)
  {
    assert forall i :: 0 <= i < |a| ==> a[i] == o.rounds[i];
    assert forall i :: 0 <= i < |b| ==> b[i] == o.rounds[|a| + i];
    RoundsViewsAppend(o.id, a, b);
    ResolveAllAppend(RoundsViews(o.id, a), RoundsViews(o.id, b), teams);
  }

  lemma RoundsViewsAppend(leagueId: int, a: seq<LeagueRound>, b: seq<LeagueRound>)
    requires forall i :: 0 <= i < |a| ==> RoundReadable(a[i])
    requires forall i :: 0 <= i < |b| ==> RoundReadable(b[i])
    ensures forall i :: 0 <= i < |a + b| ==> RoundReadable((a + b)[i])
    ensures RoundsViews(leagueId, a + b) == RoundsViews(leagueId, a) + RoundsViews(leagueId, b)
  {
    var rv := PerRound(leagueId, a + b);
    var ra := PerRound(leagueId, a);
    var rb := PerRound(leagueId, b);
    forall i | 0 <= i < |rv| ensures rv[i] == (ra + rb)[i] {
      if i < |a| {
        assert (ra + rb)[i] == ra[i];
      } else {
        assert (ra + rb)[i] == rb[i - |a|];
      }
    }
    assert rv == ra + rb;
    FlattenAppend(ra, rb);
  }

  /** The rows of one round, all names registered: one per match, in match order. */
  lemma RoundRowsInMatchOrder(o: OldLeagueFormat, teams: seq<Team>)
    requires |o.rounds| == 1 && LeagueReadable(OldFormat(o))
    requires forall j :: 0 <= j < |o.rounds[0].matches| ==>
      HasName(teams, o.rounds[0].matches[j].team1) && HasName(teams, o.rounds[0].matches[j].team2)
    ensures |LeagueMatchRows(OldFormat(o), teams)| == |o.rounds[0].matches|
    ensures forall j :: 0 <= j < |o.rounds[0].matches| ==>
      RowOf(LeagueMatchRows(OldFormat(o), teams)[j], o.id, None, o.rounds[0].name, o.rounds[0].matches[j], teams)
  {
    SingleRoundViews(o);
    RoundRows(o.id, o.rounds[0], teams);
  }

  /** A league of one round has exactly that round's views. */
  lemma SingleRoundViews(o: OldLeagueFormat)
    requires |o.rounds| == 1 && LeagueReadable(OldFormat(o))
    ensures LeagueViews(OldFormat(o)) == RoundViews(o.id, o.rounds[0])
  {
    FlattenSingle(PerRound(o.id, o.rounds));
  }

  /** A round whose names are all registered gives one row per match, in order. */
  lemma RoundRows(leagueId: int, r: LeagueRound, teams: seq<Team>)
    requires RoundReadable(r)
    requires forall j :: 0 <= j < |r.matches| ==> HasName(teams, r.matches[j].team1) && HasName(teams, r.matches[j].team2)
    ensures |ResolveAll(RoundViews(leagueId, r), teams)| == |r.matches|
    ensures forall j :: 0 <= j < |r.matches| ==>
      RowOf(ResolveAll(RoundViews(leagueId, r), teams)[j], leagueId, None, r.name, r.matches[j], teams)
  {
    var vs := RoundViews(leagueId, r);
    forall j | 0 <= j < |vs| ensures Resolve(vs[j], teams).Some? {
    }
    ResolveAllComplete(vs, teams);
    var rows := ResolveAll(vs, teams);
    forall j | 0 <= j < |r.matches| ensures RowOf(rows[j], leagueId, None, r.name, r.matches[j], teams) {
      assert Some(rows[j]) == Resolve(vs[j], teams);
    }
  }

  /** The match rows follow the league order: those of leagues a + b are
      those of a, then those of b. */
  lemma MatchRowsLeagueOrder(a: seq<LeagueJsonFormat>, b: seq<LeagueJsonFormat>, teams: seq<Team>)
    requires AllReadable(a) && AllReadable(b)
    ensures AllReadable(a + b)
    ensures MatchRows(a + b, teams) == MatchRows(a, teams) + MatchRows(b, teams)
  {
    PerLeagueAppend(a, b, teams);
    FlattenAppend(PerLeague(a, teams), PerLeague(b, teams));
  }

  lemma PerLeagueAppend(a: seq<LeagueJsonFormat>, b: seq<LeagueJsonFormat>, teams: seq<Team>)
    requires AllReadable(a) && AllReadable(b)
    ensures AllReadable(a + b)
    ensures PerLeague(a + b, teams) == PerLeague(a, teams) + PerLeague(b, teams)
  {
    forall i | 0 <= i < |a + b|
      ensures LeagueReadable((a + b)[i]) && (a + b)[i] == (if i < |a| then a[i] else b[i - |a|])
    {
    }
    var s := PerLeague(a + b, teams);
    var t := PerLeague(a, teams) + PerLeague(b, teams);
    forall i | 0 <= i < |s| ensures s[i] == t[i] {
    }
  }

  /** Every match row comes from one of the leagues, and refers to registered
      teams by the ids the registry holds for its two names. */
  lemma MatchRowsReferenceRegisteredTeams(leagues: seq<LeagueJsonFormat>, teams: seq<Team>, row: MatchRow)
    requires AllReadable(leagues)
    requires row in MatchRows(leagues, teams)
    ensures exists i :: 0 <= i < |leagues| && row in LeagueMatchRows(leagues[i], teams) && row.leagueId == leagues[i].LeagueId()
    ensures exists t :: 0 <= t < |teams| && teams[t].id == row.team1Id
    ensures exists t :: 0 <= t < |teams| && teams[t].id == row.team2Id
  {
    var s := PerLeague(leagues, teams);
    FlattenMembership(s, row);
    var i :| 0 <= i < |s| && row in s[i];
    var vs := LeagueViews(leagues[i]);
    ResolveAllMembership(vs, teams, row);
    var p :| 0 <= p < |vs| && Resolve(vs[p], teams) == Some(row);
    match leagues[i]
    case OldFormat(o) =>
      OldLeagueRowsSound(o, teams, row);
    case NewFormat(n) =>
      NewLeagueRowsSound(n, teams, row);
  }

  /** A match row carries the id of its league as decoded: when every league
      has id 0, so does every row. */
  lemma RowsCarryDecodedId(leagues: seq<LeagueJsonFormat>, teams: seq<Team>, row: MatchRow)
    requires AllReadable(leagues)
    requires forall i :: 0 <= i < |leagues| ==> leagues[i].LeagueId() == 0
    requires row in MatchRows(leagues, teams)
    ensures row.leagueId == 0
  {
    MatchRowsReferenceRegisteredTeams(leagues, teams, row);
  }

  /** Nothing in the loader changes a league's id: if the existing leagues and
      every decoded league have id 0 (the decoder's default), every match row
      built from the loaded leagues has league id 0. */
  lemma LoadedRowsCarryDefaultId(l: JsonLoader, row: MatchRow)
    requires l.isInitialized
    requires forall i :: 0 <= i < |l.leagues| ==> l.leagues[i].LeagueId() == 0
    requires forall i :: 0 <= i < |l.files| && l.files[i].asLeague.Some? ==> l.files[i].asLeague.value.LeagueId() == 0
    requires AllReadable(GetLeagues(LoadLeagues(l).0))
    requires row in MatchRows(GetLeagues(LoadLeagues(l).0), GetTeams(l))
    ensures row.leagueId == 0
  {
    LoadLeaguesKeepsIds(l, 0);
    RowsCarryDecodedId(GetLeagues(LoadLeagues(l).0), GetTeams(l), row);
  }

  // ---------------------------------------------------------------------
  // The processor and the sink
  // ---------------------------------------------------------------------

  /** A row appended to one of the three tables. */
  datatype SinkRow = TeamRow(id: int, name: string, code: Option<string>) | LeagueRow(name: string) | MatchEntry(row: MatchRow)

  datatype DbError = OpenFailed | CreateTableFailed | InvalidQuery

  datatype Outcome = Ok | Err(error: DbError)

  /** The processor: whether a connection is open and whether init finished. */
  datatype DatabaseProcessor = DatabaseProcessor(connected: bool, initialized: bool)

  function NewProcessor(): DatabaseProcessor {
    DatabaseProcessor(false, false)
  }

  /** init, with the outcomes of opening the database and of creating the
      three tables given: a failed open changes nothing; a failed table
      creation leaves the new connection but not the initialized flag. */
  function DbInit(db: DatabaseProcessor, openSucceeded: bool, tablesCreated: bool): (r: (DatabaseProcessor, Outcome))
    ensures r.1 == Ok <==> openSucceeded && tablesCreated
    ensures r.1 == Ok ==> r.0.initialized && r.0.connected
    ensures !openSucceeded ==> r.0 == db
    ensures openSucceeded && !tablesCreated ==> r.0 == db.(connected := true)
  {
    if !openSucceeded then (db, Err(OpenFailed))
    else if !tablesCreated then (db.(connected := true), Err(CreateTableFailed))
    else (DatabaseProcessor(true, true), Ok)
  }

  /** The processor's invariant: an initialized processor has a connection. */
  predicate ProcessorValid(db: DatabaseProcessor) {
    db.initialized ==> db.connected
  }

  lemma DbInitKeepsValid(db: DatabaseProcessor, openSucceeded: bool, tablesCreated: bool)
    requires ProcessorValid(db)
    ensures ProcessorValid(NewProcessor())
    ensures ProcessorValid(DbInit(db, openSucceeded, tablesCreated).0)
  {
  }

  function TeamRows(teams: seq<Team>): seq<SinkRow> {
    seq(|teams|, i requires 0 <= i < |teams| => TeamRow(teams[i].id, teams[i].name, teams[i].code))
  }

  /** League rows carry only the name; the database assigns their ids. */
  function LeagueRows(leagues: seq<LeagueJsonFormat>): seq<SinkRow> {
    seq(|leagues|, i requires 0 <= i < |leagues| => LeagueRow(leagues[i].LeagueName()))
  }

  function MatchEntries(rows: seq<MatchRow>): seq<SinkRow> {
    seq(|rows|, i requires 0 <= i < |rows| => MatchEntry(rows[i]))
  }

  /** One insertion phase: an error and no rows without a connection. */
  function Phase(db: DatabaseProcessor, sink: seq<SinkRow>, rows: seq<SinkRow>): (seq<SinkRow>, Outcome) {
    if !db.connected then (sink, Err(InvalidQuery)) else (sink + rows, Ok)
  }

  /** insert_data_from_loader: refuses an uninitialized processor; otherwise
      runs the teams, leagues and matches phases in that order, stopping at
      the first failing phase. The loader's scores must be readable once the
      matches phase runs, since a short score array panics there. */
  function InsertDataFromLoader(db: DatabaseProcessor, loader: JsonLoader, sink: seq<SinkRow>): (r: (seq<SinkRow>, Outcome))
    requires db.initialized && db.connected ==> AllReadable(loader.leagues)
  {
    if !db.initialized then (sink, Err(InvalidQuery))
    else
      var (s1, o1) := Phase(db, sink, TeamRows(GetTeams(loader)));
      if o1.Err? then (s1, o1)
      else
        var (s2, o2) := Phase(db, s1, LeagueRows(GetLeagues(loader)));
        if o2.Err? then (s2, o2)
        else Phase(db, s2, MatchEntries(MatchRows(GetLeagues(loader), GetTeams(loader))))
  }

  /** The table a sink row goes to, in phase order. */
  function TableRank(r: SinkRow): nat {
    match r
    case TeamRow(_, _, _) => 0
    case LeagueRow(_) => 1
    case MatchEntry(_) => 2
  }

  /** An uninitialized processor reports an error and inserts nothing. */
  lemma InsertUninitializedIsRefused(db: DatabaseProcessor, loader: JsonLoader, sink: seq<SinkRow>)
    requires !db.initialized
    ensures InsertDataFromLoader(db, loader, sink) == (sink, Err(InvalidQuery))
  {
  }

  /** A valid initialized processor succeeds, keeps what the sink held, and
      appends one row per team, then one per league, then the match rows:
      no row of a later phase precedes a row of an earlier one. */
  lemma InsertPhasesInOrder(db: DatabaseProcessor, loader: JsonLoader, sink: seq<SinkRow>)
    requires db.initialized && ProcessorValid(db)
    requires AllReadable(loader.leagues)
    ensures var (out, res) := InsertDataFromLoader(db, loader, sink);
      && res == Ok
      && out == sink + TeamRows(loader.teams) + LeagueRows(loader.leagues) + MatchEntries(MatchRows(loader.leagues, loader.teams))
      && forall i, j :: |sink| <= i < j < |out| ==> TableRank(out[i]) <= TableRank(out[j])
  {
    var t := TeamRows(loader.teams);
    var g := LeagueRows(loader.leagues);
    var m := MatchEntries(MatchRows(loader.leagues, loader.teams));
    var out := sink + t + g + m;
    forall i | |sink| <= i < |out|
      ensures TableRank(out[i]) == if i < |sink| + |t| then 0 else if i < |sink| + |t| + |g| then 1 else 2
    {
      if i < |sink| + |t| {
        assert out[i] == t[i - |sink|];
      } else if i < |sink| + |t| + |g| {
        assert out[i] == g[i - |sink| - |t|];
      } else {
        assert out[i] == m[i - |sink| - |t| - |g|];
      }
    }
  }
}
