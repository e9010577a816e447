# football_json_loader: the normalization layer, in Dafny

This project models the core of a loader that reads the openfootball
`football.json` data set and writes it to SQLite. The model covers three
parts. It treats every value as immutable data and every operation as a pure
function.

- **Scores, matches and leagues** (`model.dfy`, module `Model`). A score is
  one of two untagged shapes: a pair under `ft` or a pair under `et`. A match
  is either an old-schema match or a new-schema match. A new-schema match
  carries its own stage and round and embeds an old-schema match. A league is
  either round-grouped (old schema) or a flat list of matches (new schema).
  The Rust `LeagueMatch` and `LeagueScore` traits become member functions on
  each datatype.
- **The JSON loader** (`json.dfy`, module `Json`). Files are classified by
  whether their path contains `"clubs"` or `"groups"`. The team registry is
  built from the roster files. It deduplicates by exact name, keeps the first
  team seen, assigns an interim id of `len + 1`, and at the end renumbers the
  ids from 0. Leagues are collected from the files whose path contains
  neither `"clubs"` nor `"groups"`. Each discovered
  file is given with the outcome of decoding it as a roster and as a league.
- **The database processor** (`db.dfy`, module `Db`). Inserting becomes
  appending rows to a sink. The matches phase flattens each league into
  rows. An old-schema league gives one row per (round, match), with no stage
  and the round's name as its round. A new-schema league takes the stage and
  round from each match. A match is dropped unless both team names resolve.

The source sets `self.is_initialized = true` only after a successful `init`.
Both `load_teams` and `load_leagues` return `None` until then. The loader
and the processor are records, and each operation returns the new record.

Three points worth knowing about the code. The model follows the code in
each case:

- The `et` score shape's own accessors read `et[0]` for team 1 and `et[1]`
  for team 2 (`src/model.rs:143-151`). The `LeagueScoreFormat` dispatch,
  however, calls the shape's team-2 accessor in its team-1 arm
  (`src/model.rs:157`). So through the union an `et` score reports `et[1]`
  for both teams, while an `ft` score reports `ft[0]` and `ft[1]`.
  `Model.AustralianDispatchReadsSlotOneTwice` states this for every `et`
  pair, and `Model.AustralianTwoOneReadsOneOne` shows that `[2, 1]` under
  `et` is reported as 1 : 1 but as 2 : 1 under `ft`.
  `Model.IntendedTeam1Score` is the reading that agrees with the shape's own
  accessors. `Model.IntendedReadingTreatsKeysAsSynonyms` proves that it
  gives the same pair the same scores under either key. Match rows use the
  dispatch as written, because that is what the code stores.
- League ids are skipped by the deserializer and default to 0
  (`src/model.rs:61-62`, `src/model.rs:170-171`). `src/json.rs`,
  `src/db.rs` and `src/main.rs` never call `set_league_id`
  (`src/model.rs:43-48`). The model leaves a decoded league's id free, but
  nothing in it changes an id: `Db.LoadedRowsCarryDefaultId` proves that
  when the decoded ids are 0, every match row built from the loaded leagues
  carries league id 0. The leagues table gets its ids from the database.
- Decoding accepts a score array of any length. The accessors index it
  directly (`src/model.rs:130`, `src/model.rs:134`, `src/model.rs:149`), so
  a short array panics. The model makes readable scores a precondition of
  the accessors and of the matches phase. The code reads both scores before
  it checks the team names, so this applies even to matches that are later
  dropped.

Team names resolve through `get_team_id_from_name`. It is not defined in
`src/json.rs`. `Json.TeamIdFromName` models it as the id of the
first team in the registry with exactly that name. `get_leagues` is likewise not
defined there. `Json.GetLeagues` models it as reading the loader's league list.

## Model

| member | source | states |
|---|---|---|
| `Model.NormalDispatch` | src/model.rs:128-136 | through the union, an `ft` score gives `ft[0]` for team 1 and `ft[1]` for team 2 |
| `Model.AustralianOwnAccessors` | src/model.rs:143-151 | the `et` shape's own accessors give `et[0]` for team 1 and `et[1]` for team 2 |
| `Model.AustralianDispatchReadsSlotOneTwice` | src/model.rs:153-165 | as written, the union gives `et[1]` for both teams of an `et` score |
| `Model.AustralianTwoOneReadsOneOne` | src/model.rs:128-165 | the `et` pair `[2, 1]` is reported as 1 : 1 through the union, while the same pair under `ft` is reported as 2 : 1 |
| `Model.AustralianDispatchDisagrees` | src/model.rs:157 | the union's team-1 value for an `et` score equals the shape's own team-1 accessor if and only if both slots are equal |
| `Model.IntendedReadingTreatsKeysAsSynonyms` | src/model.rs:128-151 | under the intended reading, the same pair under `ft` or `et` gives the same team-1 and team-2 scores |
| `Model.IntendedAgreesWithWritten` | src/model.rs:153-159 | the intended and as-written team-1 readings agree if and only if the score is `ft` or its two `et` slots are equal |
| `Model.MissingScoreIsNoResult` | src/model.rs:94-108 | a match's score accessors return None if and only if it has no score, never 0; otherwise they return the score's values |
| `Model.NewMatchDelegates` | src/model.rs:184-204 | a new-schema match returns exactly the date and team names of its embedded match, and each score that the embedded match can read |
| `Model.LeagueJsonFormat.SetLeagueId` | src/model.rs:43-48 | after setting the id, the getter returns it, and the schema, name, rounds and matches are unchanged |
| `Model.LeagueNameIsNameField` | src/model.rs:29-34 | the name getter returns the `name` field of either schema |
| `Model.SetLeagueIdLastWins` | src/model.rs:36-48 | setting a league's current id changes nothing, and of two settings the last one wins |
| `Json.AsI32` | src/json.rs:108 | `as i32` gives a value in the 32-bit range that is congruent to its input mod 2^32 and equal to it when it is already in range |
| `Json.ContainsIffOccurs` | src/json.rs:121 | the path substring test holds if and only if the pattern occurs at some offset |
| `Json.Init` | src/json.rs:24-44 | init either fails and leaves the loader unchanged, or appends the discovered files and marks the loader initialized; it never touches teams or leagues |
| `Json.FindName` | src/json.rs:90-95 | the full scan for a registered team reports true if and only if some team has exactly that name |
| `Json.Renumber` | src/json.rs:106-109 | the final pass keeps every team in its place and changes only its id, to its position as i32 |
| `Json.AddTeamsExtends` | src/json.rs:101-102 | registration only appends: the existing list is a prefix of the result, and each appended team's interim id is its position + 1 |
| `Json.AddTeamsNames` | src/json.rs:89-103 | a name is registered after the roster entries if and only if it was registered before or some entry has it |
| `Json.AddTeamsUniqueNames` | src/json.rs:89-103 | registration never creates two teams with the same name |
| `Json.AddTeamsFirstSeenWins` | src/json.rs:90-99 | every newly registered team matches, in name and code, the FIRST entry with its name, and its name was not registered before |
| `Json.AddTeamsFirstSeenOrder` | src/json.rs:102 | newly registered teams appear in the order their names were first seen |
| `Json.AddTeamsNothingNew` | src/json.rs:97-99 | entries whose names are all registered leave the registry unchanged |
| `Json.RosterNames` | src/json.rs:68-71 | a name occurs among the gathered roster entries if and only if some file whose path contains "clubs", and which decoded, lists it |
| `Json.LoadTeamsDenseIds` | src/json.rs:106-109 | after load_teams, names are distinct, existing teams keep their place, name and code, and each team's id is its position (as i32) |
| `Json.LoadTeamsNames` | src/json.rs:68-103 | after load_teams, a name is registered if and only if it was before or a decoded roster file lists it; no other file adds one |
| `Json.LoadTeamsFirstSeenWins` | src/json.rs:89-103 | after load_teams, each new team is, apart from its id, the first roster entry seen with its name in file order |
| `Json.LoadTeamsIdempotent` | src/json.rs:62-112 | calling load_teams a second time leaves the loader and the result as they were |
| `Json.LoadTeams` | src/json.rs:62-112 | an uninitialized loader returns None and is unchanged; otherwise the result is the new team list and only the teams change |
| `Json.TeamIdFromName` | src/db.rs:179-180 | a name resolves if and only if some team has exactly that name, and it resolves to the id of such a team |
| `Json.LookupInUniqueRegistry` | src/db.rs:226-227 | in a registry with distinct names, as load_teams leaves it, each team's name resolves to that team's own id |
| `Json.GatherAppend` | src/json.rs:68 | files are processed one after another: the items from a + b are those from a, then those from b |
| `Json.GatherMembership` | src/json.rs:120 | an item is collected if and only if some file yields it |
| `Json.LoadLeagues` | src/json.rs:114-145 | an uninitialized loader returns None and is unchanged; otherwise the result is the new league list and only the leagues change |
| `Json.LoadLeaguesAppends` | src/json.rs:120-144 | load_leagues keeps the existing leagues and appends, in file order, exactly the decoded leagues of files whose path contains neither "clubs" nor "groups" |
| `Json.LeagueOfOneFile` | src/json.rs:121-141 | a single file contributes its league if and only if it is a league file and decoded |
| `Json.LoadLeaguesTwice` | src/json.rs:141 | unlike load_teams, a second load_leagues appends the same leagues again |
| `Json.OperationsKeepConsistent` | src/json.rs:63-66 | new, init, load_teams and load_leagues keep team names distinct; an uninitialized loader's loads return None and change nothing |
| `Db.ResolveIffBothNamesKnown` | src/db.rs:184-194 | a match yields a row if and only if both team names are registered; the row keeps the date, league id, stage, round and scores unchanged |
| `Db.ResolveAllAppend` | src/db.rs:177 | rows are produced match by match, in match order |
| `Db.ResolveAllMembership` | src/db.rs:231-241 | a row is emitted if and only if some match resolves to it |
| `Db.ResolveAllComplete` | src/db.rs:196-209 | when every name resolves, no match is dropped: there is one row per match, in order |
| `Db.OldLeagueRowsSound` | src/db.rs:170-209 | every row of a round-grouped league has no stage and the league's id, and comes from some match of some round with that round's name as its round |
| `Db.OldLeagueRowsComplete` | src/db.rs:174-194 | every match of a round-grouped league whose two names are registered gives such a row |
| `Db.NewLeagueRowsSound` | src/db.rs:219-256 | every row of a flat league has the league's id and takes its stage and round from its own match |
| `Db.NewLeagueRowsComplete` | src/db.rs:222-241 | every match of a flat league whose two names are registered gives such a row |
| `Db.OldLeagueRowCount` | src/db.rs:174-177 | with all names registered, R rounds of k matches give R * k rows |
| `Db.OldLeagueRoundOrder` | src/db.rs:174 | rows of a round-grouped league follow round order |
| `Db.RoundRowsInMatchOrder` | src/db.rs:177 | with all names registered, a round gives one row per match, in match order |
| `Db.MatchRowsLeagueOrder` | src/db.rs:168 | match rows follow league order |
| `Db.MatchRowsReferenceRegisteredTeams` | src/db.rs:168-182 | every row comes from one league and carries that league's id, and both its team ids belong to registered teams |
| `Json.LoadLeaguesKeepsIds` | src/json.rs:114-145 | load_leagues changes no league id: when the existing and the decoded leagues all carry one id, every loaded league carries it |
| `Db.RowsCarryDecodedId` | src/db.rs:168-221 | a match row carries its league's id unchanged: when every league has id 0, every row has league id 0 |
| `Db.LoadedRowsCarryDefaultId` | src/json.rs:114-145 | load_leagues keeps ids as decoded, so when existing and decoded leagues have the default id 0, every match row built from the loaded leagues has league id 0 |
| `Db.DbInit` | src/db.rs:16-26 | init succeeds if and only if the database opens and the tables are created; success leaves the processor initialized and connected, a failed open changes nothing, and a failed table creation keeps the new connection and leaves the initialized flag as it was |
| `Db.DbInitKeepsValid` | src/db.rs:16-26 | an initialized processor always has a connection |
| `Db.InsertUninitializedIsRefused` | src/db.rs:81-84 | an uninitialized processor returns an error and inserts nothing |
| `Db.InsertPhasesInOrder` | src/db.rs:86-88 | an initialized processor succeeds and appends one row per team, then one per league, then the match rows; no row of a later phase comes before a row of an earlier one |

## Left out

- Directory traversal, the skipping of `.git`, and the fixed `/tmp/football.json` root are filesystem I/O. `Json.Init` receives the outcome of the scan instead.
- JSON deserialization, including the trial order of the untagged enums. Each file carries the outcome of decoding it as a roster and as a league, and None stands for any read or decode failure.
- Dates are opaque values that are only copied. Date parsing belongs to the deserializer.
- SQL table creation and `conn.execute`. Inserting is appending to a sink. Per-row insert failures are not modelled, and neither are the ids the database assigns to league and match rows.
- Logging (`warn!`, `info!`) and the command-line program in `src/main.rs` (argument parsing, logger setup, cloning the data set) are left out.
- Integer widths: scores and league ids are unbounded integers. Their 32-bit range belongs to the deserializer. Team ids model `as i32` truncation with `Json.AsI32`.
- Json.AddTeam: follows a release build, where `len as i32 + 1` wraps. A debug build panics when the registry already holds 2^31 - 1 teams. The interim id is overwritten either way.
- Index panics on short score arrays are preconditions. The model does not represent the crash itself.
