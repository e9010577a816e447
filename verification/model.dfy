/** The parsed shapes of the football.json data set: scores, matches in the
    old (round-grouped) and new (flat) schemas, leagues in either schema, and
    the team roster records. Deserialization is not modelled: values of these
    types stand for what the JSON decoder produced. */
module Model {

  /** Rust's Option. */
  datatype Option<+T> = None | Some(value: T)

  /** A calendar date, treated as an opaque value: the loader only copies it. */
  datatype Date = Date(year: int, month: int, day: int)

  /** A team record from a roster ("clubs") file. The id is not in the data;
      the decoder fills it with the default 0 and the loader assigns it. */
  datatype Team = Team(id: int, name: string, code: Option<string>)

  /** A roster file: a name and its list of clubs. */
  datatype MatchTeamList = MatchTeamList(name: string, teams: seq<Team>)

  // ---------------------------------------------------------------------
  // Scores
  // ---------------------------------------------------------------------

  /** A full-time score under the key "ft". Reading a slot that the array
      does not have is an index panic in the source, hence the requires. */
  datatype NormalLeagueScore = NormalLeagueScore(ft: seq<int>) {
    function Team1Score(): int
      requires |ft| >= 1
    {
      ft[0]
    }

    function Team2Score(): int
      requires |ft| >= 2
    {
      ft[1]
    }
  }

  /** A score under the alternative key "et". */
  datatype AustralianScore = AustralianScore(et: seq<int>) {
    function Team1Score(): int
      requires |et| >= 1
    {
      et[0]
    }

    function Team2Score(): int
      requires |et| >= 2
    {
      et[1]
    }
  }

  /** The untagged union of the two score shapes. Its accessors dispatch to
      the variant's own accessors exactly as the source does: the Australian
      arm of the team-1 accessor calls the variant's TEAM-2 accessor. */
  datatype LeagueScoreFormat = Normal(normal: NormalLeagueScore) | Australian(australian: AustralianScore) {

    /** The team-1 accessor does not panic. */
    predicate Team1Readable() {
      match this
      case Normal(n) => |n.ft| >= 1
      case Australian(a) => |a.et| >= 2
    }

    /** The team-2 accessor does not panic. */
    predicate Team2Readable() {
      match this
      case Normal(n) => |n.ft| >= 2
      case Australian(a) => |a.et| >= 2
    }

    function Team1Score(): int
      requires Team1Readable()
    {
      match this
      case Normal(n) => n.Team1Score()
      case Australian(a) => a.Team2Score()
    }

    function Team2Score(): int
      requires Team2Readable()
    {
      match this
      case Normal(n) => n.Team2Score()
      case Australian(a) => a.Team2Score()
    }
  }

  /** The reading the two shapes were evidently meant to share: slot 0 is
      team 1, slot 1 is team 2, whichever key holds the pair. */
  function IntendedTeam1Score(s: LeagueScoreFormat): int
    requires s.Team1Readable()
  {
    match s
    case Normal(n) => n.Team1Score()
    case Australian(a) => a.Team1Score()
  }

  /** Through the union, the normal shape reads its own slots 0 and 1. */
  lemma NormalDispatch(n: NormalLeagueScore)
    requires |n.ft| >= 2
    ensures Normal(n).Team1Score() == n.ft[0]
    ensures Normal(n).Team2Score() == n.ft[1]
  {
  }

  /** The variant's own accessors read slot 0 for team 1 and slot 1 for team 2. */
  lemma AustralianOwnAccessors(a: AustralianScore)
    requires |a.et| >= 2
    ensures a.Team1Score() == a.et[0]
    ensures a.Team2Score() == a.et[1]
  {
  }

  /** As written, the union reports slot 1 of an "et" pair for BOTH teams. */
  lemma AustralianDispatchReadsSlotOneTwice(a: AustralianScore)
    requires |a.et| >= 2
    ensures Australian(a).Team1Score() == a.et[1]
    ensures Australian(a).Team2Score() == a.et[1]
    ensures Australian(a).Team1Score() == Australian(a).Team2Score()
  {
  }

  /** The as-written team-1 reading agrees with the variant's own team-1
      accessor exactly when the two slots hold the same number. */
  lemma AustralianDispatchDisagrees(a: AustralianScore)
    requires |a.et| >= 2
    ensures Australian(a).Team1Score() == a.Team1Score() <==> a.et[0] == a.et[1]
  {
  }

  /** The "et" pair [2, 1] is reported as 1 : 1, while the same pair under
      "ft" is reported as 2 : 1. */
  lemma AustralianTwoOneReadsOneOne()
    ensures Australian(AustralianScore([2, 1])).Team1Score() == 1
    ensures Australian(AustralianScore([2, 1])).Team2Score() == 1
    ensures Normal(NormalLeagueScore([2, 1])).Team1Score() == 2
    ensures Normal(NormalLeagueScore([2, 1])).Team2Score() == 1
  {
  }

  /** Under the intended reading the two keys are synonyms: the same pair
      under "ft" or under "et" gives the same team-1 and team-2 scores. */
  lemma IntendedReadingTreatsKeysAsSynonyms(pair: seq<int>)
    requires |pair| >= 2
    ensures IntendedTeam1Score(Normal(NormalLeagueScore(pair))) == pair[0]
    ensures IntendedTeam1Score(Australian(AustralianScore(pair))) == pair[0]
    ensures Normal(NormalLeagueScore(pair)).Team2Score() == Australian(AustralianScore(pair)).Team2Score() == pair[1]
  {
  }

  /** The as-written and intended readings differ only on the Australian
      team-1 score, and only when its two slots differ. */
  lemma IntendedAgreesWithWritten(s: LeagueScoreFormat)
    requires s.Team1Readable() && s.Team2Readable()
    ensures IntendedTeam1Score(s) == s.Team1Score() <==> (s.Normal? || s.australian.et[0] == s.australian.et[1])
  {
  }

  // ---------------------------------------------------------------------
  // Matches
  // ---------------------------------------------------------------------

  /** A match of the old schema (also the flattened body of a new-schema match). */
  datatype OldLeagueMatch = OldLeagueMatch(date: Date, team1: string, team2: string, score: Option<LeagueScoreFormat>) {

    /** The team-1 score accessor does not panic. */
    predicate Team1ScoreReadable() {
      score.Some? ==> score.value.Team1Readable()
    }

    /** The team-2 score accessor does not panic. */
    predicate Team2ScoreReadable() {
      score.Some? ==> score.value.Team2Readable()
    }

    /** Neither score accessor panics. */
    predicate ScoresReadable() {
      Team1ScoreReadable() && Team2ScoreReadable()
    }

    function MatchDate(): Date { date }

    function Team1Name(): string { team1 }

    function Team2Name(): string { team2 }

    function Team1Score(): Option<int>
      requires Team1ScoreReadable()
    {
      if score.Some? then Some(score.value.Team1Score()) else None
    }

    function Team2Score(): Option<int>
      requires Team2ScoreReadable()
    {
      if score.Some? then Some(score.value.Team2Score()) else None
    }
  }

  /** A match of the new schema: its own stage and round, and the old-schema
      fields flattened into it. Every accessor delegates to the embedded match. */
  datatype NewLeagueMatch = NewLeagueMatch(stage: Option<string>, round: string, matchInfo: OldLeagueMatch) {

    predicate ScoresReadable() { matchInfo.ScoresReadable() }

    function MatchDate(): Date { matchInfo.MatchDate() }

    function Team1Name(): string { matchInfo.Team1Name() }

    function Team2Name(): string { matchInfo.Team2Name() }

    function Team1Score(): Option<int>
      requires matchInfo.Team1ScoreReadable()
    {
      matchInfo.Team1Score()
    }

    function Team2Score(): Option<int>
      requires matchInfo.Team2ScoreReadable()
    {
      matchInfo.Team2Score()
    }
  }

  /** A match without a score reports no result for either team, never a
      zero; a match with a score reports the score's values. */
  lemma MissingScoreIsNoResult(m: OldLeagueMatch)
    requires m.ScoresReadable()
    ensures m.Team1Score() == None <==> m.score == None
    ensures m.Team2Score() == None <==> m.score == None
    ensures m.score.Some? ==> m.Team1Score() == Some(m.score.value.Team1Score())
    ensures m.score.Some? ==> m.Team2Score() == Some(m.score.value.Team2Score())
  {
  }

  /** A new-schema match reports exactly the date, names and scores of its
      embedded old-schema match. */
  lemma NewMatchDelegates(m: NewLeagueMatch)
    ensures m.MatchDate() == m.matchInfo.date
    ensures m.Team1Name() == m.matchInfo.team1 && m.Team2Name() == m.matchInfo.team2
    ensures m.matchInfo.Team1ScoreReadable() ==> m.Team1Score() == m.matchInfo.Team1Score()
    ensures m.matchInfo.Team2ScoreReadable() ==> m.Team2Score() == m.matchInfo.Team2Score()
  {
  }

  // ---------------------------------------------------------------------
  // Leagues
  // ---------------------------------------------------------------------

  datatype LeagueRound = LeagueRound(name: string, matches: seq<OldLeagueMatch>)

  /** The old schema: matches grouped by named rounds. */
  datatype OldLeagueFormat = OldLeagueFormat(id: int, name: string, rounds: seq<LeagueRound>)

  /** The new schema: a flat list of matches that carry their own stage and round. */
  datatype NewLeagueFormat = NewLeagueFormat(id: int, name: string, matches: seq<NewLeagueMatch>)

  /** The untagged union of the two league schemas. */
  datatype LeagueJsonFormat = OldFormat(oldLeague: OldLeagueFormat) | NewFormat(newLeague: NewLeagueFormat) {

    function LeagueName(): string {
      match this
      case OldFormat(o) => o.name
      case NewFormat(n) => n.name
    }

    function LeagueId(): int {
      match this
      case OldFormat(o) => o.id
      case NewFormat(n) => n.id
    }

    /** Replaces the id and nothing else. */
    function SetLeagueId(id: int): (r: LeagueJsonFormat)
      ensures r.LeagueId() == id
      ensures r.OldFormat? == OldFormat? && r.LeagueName() == LeagueName()
      ensures r.OldFormat? ==> r.oldLeague.rounds == oldLeague.rounds
      ensures r.NewFormat? ==> r.newLeague.matches == newLeague.matches
    {
      match this
      case OldFormat(o) => OldFormat(o.(id := id))
      case NewFormat(n) => NewFormat(n.(id := id))
    }
  }

  /** The name getter returns the name field of whichever schema holds it. */
  lemma LeagueNameIsNameField(l: LeagueJsonFormat)
    ensures l.OldFormat? ==> l.LeagueName() == l.oldLeague.name
    ensures l.NewFormat? ==> l.LeagueName() == l.newLeague.name
  {
  }

  /** Setting the id it already has changes nothing, and of two settings the
      last one wins. */
  lemma SetLeagueIdLastWins(l: LeagueJsonFormat, a: int, b: int)
    ensures l.SetLeagueId(l.LeagueId()) == l
    ensures l.SetLeagueId(a).SetLeagueId(b) == l.SetLeagueId(b)
  {
  }
}
