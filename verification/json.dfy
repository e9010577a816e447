/** The JSON loader: classifies source files by path, builds the team
    registry from the roster ("clubs") files and collects the leagues from
    the remaining files. Directory traversal and deserialization are not
    modelled: the loader is given the discovered files, each with the
    outcome of decoding it as a roster and as a league. */
module Json {
  import opened Model

  // ---------------------------------------------------------------------
  // Integer casts
  // ---------------------------------------------------------------------

  /** Rust's `as i32` on an integer: two's-complement truncation to 32 bits. */
  function AsI32(n: int): (r: int)
    ensures -0x8000_0000 <= r < 0x8000_0000
    ensures (n - r) % 0x1_0000_0000 == 0
    ensures 0 <= n < 0x8000_0000 ==> r == n
  {
    var m := n % 0x1_0000_0000;
    if m < 0x8000_0000 then m else m - 0x1_0000_0000
  }

  // ---------------------------------------------------------------------
  // Substring test on paths
  // ---------------------------------------------------------------------

  predicate IsPrefix(t: string, s: string) {
    |t| <= |s| && s[..|t|] == t
  }

  /** `s.contains(t)`: t occurs somewhere in s. */
  predicate Contains(s: string, t: string)
    decreases |s|
  {
    IsPrefix(t, s) || (|s| > 0 && Contains(s[1..], t))
  }

  /** t occurs in s starting at offset i. */
  predicate OccursAt(s: string, t: string, i: int) {
    0 <= i && i + |t| <= |s| && s[i..i + |t|] == t
  }

  /** Contains agrees with the offset definition of a substring. */
  lemma {:induction false} ContainsIffOccurs(s: string, t: string)
    ensures Contains(s, t) <==> exists i :: OccursAt(s, t, i)
    decreases |s|
  {
    if Contains(s, t) {
      if IsPrefix(t, s) {
        assert OccursAt(s, t, 0);
      } else {
        ContainsIffOccurs(s[1..], t);
        var i :| OccursAt(s[1..], t, i);
        assert s[1..][i..i + |t|] == s[i + 1..i + 1 + |t|];
        assert OccursAt(s, t, i + 1);
      }
    }
    if exists i :: OccursAt(s, t, i) {
      var i :| OccursAt(s, t, i);
      if i == 0 {
        assert IsPrefix(t, s);
      } else {
        assert s[1..][i - 1..i - 1 + |t|] == s[i..i + |t|];
        assert OccursAt(s[1..], t, i - 1);
        ContainsIffOccurs(s[1..], t);
      }
    }
  }

  // ---------------------------------------------------------------------
  // Source files and the loader state
  // ---------------------------------------------------------------------

  /** A discovered file: its path and the outcome of decoding its contents
      as a roster and as a league (None when the file could not be read or
      did not decode as that shape). */
  datatype SourceFile = SourceFile(path: string, asTeamList: Option<MatchTeamList>, asLeague: Option<LeagueJsonFormat>)

  predicate IsRosterFile(f: SourceFile) {
    Contains(f.path, "clubs")
  }

  predicate IsLeagueFile(f: SourceFile) {
    !Contains(f.path, "clubs") && !Contains(f.path, "groups")
  }

  /** The loader: discovered files, the team registry, the leagues, and
      whether init has succeeded. */
  datatype JsonLoader = JsonLoader(files: seq<SourceFile>, teams: seq<Team>, leagues: seq<LeagueJsonFormat>, isInitialized: bool)

  function NewLoader(): JsonLoader {
    JsonLoader([], [], [], false)
  }

  /** init, with the directory scan given as its outcome: None when the data
      root cannot be listed (the error is returned and nothing changes),
      otherwise the files found in the readable sub-directories. */
  function Init(l: JsonLoader, scan: Option<seq<SourceFile>>): (r: (JsonLoader, bool))
    ensures r.1 <==> scan.Some?
    ensures r.1 ==> r.0.isInitialized && r.0.files == l.files + scan.value
    ensures !r.1 ==> r.0 == l
    ensures r.0.teams == l.teams && r.0.leagues == l.leagues
  {
    if scan.None? then (l, false)
    else (l.(files := l.files + scan.value, isInitialized := true), true)
  }

  /** get_teams: the registry as it stands. */
  function GetTeams(l: JsonLoader): seq<Team> {
    l.teams
  }

  /** get_leagues is not defined in src/json.rs; it is read as the loader's
      league list, the only list of leagues the loader keeps. */
  function GetLeagues(l: JsonLoader): seq<LeagueJsonFormat> {
    l.leagues
  }

  // ---------------------------------------------------------------------
  // Flattening nested sequences
  // ---------------------------------------------------------------------

  /** The inner sequences one after the other. */
  function Flatten<T>(ss: seq<seq<T>>): seq<T>
    decreases |ss|
  {
    if |ss| == 0 then [] else Flatten(ss[..|ss| - 1]) + ss[|ss| - 1]
  }

  lemma {:induction false} FlattenAppend<T>(a: seq<seq<T>>, b: seq<seq<T>>)
    ensures Flatten(a + b) == Flatten(a) + Flatten(b)
    decreases |b|
  {
    if |b| == 0 {
      assert a + b == a;
    } else {
      var init := b[..|b| - 1];
      assert (a + b)[..|a + b| - 1] == a + init;
      assert (a + b)[|a + b| - 1] == b[|b| - 1];
      FlattenAppend(a, init);
    }
  }

  /** An element of the flattening is an element of one of the inner sequences. */
  lemma {:induction false} FlattenMembership<T>(ss: seq<seq<T>>, x: T)
    ensures x in Flatten(ss) <==> exists i :: 0 <= i < |ss| && x in ss[i]
    decreases |ss|
  {
    if |ss| > 0 {
      var init := ss[..|ss| - 1];
      FlattenMembership(init, x);
      if x in Flatten(ss) && x !in ss[|ss| - 1] {
        var i :| 0 <= i < |init| && x in init[i];
        assert ss[i] == init[i];
      }
      if exists i :: 0 <= i < |ss| && x in ss[i] {
        var i :| 0 <= i < |ss| && x in ss[i];
        if i < |init| {
          assert init[i] == ss[i];
        }
      }
    }
  }

  /** A single inner sequence flattens to itself. */
  lemma FlattenSingle<T>(ss: seq<seq<T>>)
    requires |ss| == 1
    ensures Flatten(ss) == ss[0]
  {
    assert ss[..0] == [];
  }

  /** When every inner sequence has k elements, the flattening has |ss| * k. */
  lemma {:induction false} FlattenUniformLength<T>(ss: seq<seq<T>>, k: nat)
    requires forall i :: 0 <= i < |ss| ==> |ss[i]| == k
    ensures |Flatten(ss)| == |ss| * k
    decreases |ss|
  {
    if |ss| > 0 {
      FlattenUniformLength(ss[..|ss| - 1], k);
      assert |Flatten(ss)| == (|ss| - 1) * k + k;
    }
  }

  /** What a per-file step takes from each file, one sequence per file. */
  function Picks<T>(files: seq<SourceFile>, pick: SourceFile -> seq<T>): (ps: seq<seq<T>>)
    ensures |ps| == |files|
    ensures forall i :: 0 <= i < |files| ==> ps[i] == pick(files[i])
  {
    seq(|files|, i requires 0 <= i < |files| => pick(files[i]))
  }

  /** The items a per-file step takes from each file, in file order. */
  function Gather<T>(files: seq<SourceFile>, pick: SourceFile -> seq<T>): seq<T> {
    Flatten(Picks(files, pick))
  }

  /** Gathering runs file by file: the items of a + b are those of a, then those of b. */
  lemma GatherAppend<T>(a: seq<SourceFile>, b: seq<SourceFile>, pick: SourceFile -> seq<T>)
    ensures Gather(a + b, pick) == Gather(a, pick) + Gather(b, pick)
  {
    var pa := Picks(a, pick);
    var pb := Picks(b, pick);
    forall i | 0 <= i < |a + b|
      ensures Picks(a + b, pick)[i] == (pa + pb)[i]
    {
      if i < |a| {
        assert (a + b)[i] == a[i];
      } else {
        assert (a + b)[i] == b[i - |a|];
      }
    }
    assert Picks(a + b, pick) == pa + pb;
    FlattenAppend(pa, pb);
  }

  /** The last file's items come after those of the files before it. */
  lemma GatherSnoc<T>(files: seq<SourceFile>, pick: SourceFile -> seq<T>)
    requires |files| > 0
    ensures Gather(files, pick) == Gather(files[..|files| - 1], pick) + pick(files[|files| - 1])
  {
    var init := files[..|files| - 1];
    assert files == init + [files[|files| - 1]];
    GatherAppend(init, [files[|files| - 1]], pick);
    GatherOne(files[|files| - 1], pick);
  }

  /** A single file gives exactly its own items. */
  lemma GatherOne<T>(f: SourceFile, pick: SourceFile -> seq<T>)
    ensures Gather([f], pick) == pick(f)
  {
    FlattenSingle(Picks([f], pick));
  }

  /** An item is gathered exactly when some file yields it. */
  lemma GatherMembership<T>(files: seq<SourceFile>, pick: SourceFile -> seq<T>, x: T)
    ensures x in Gather(files, pick) <==> exists i :: 0 <= i < |files| && x in pick(files[i])
  {
    FlattenMembership(Picks(files, pick), x);
  }

  // ---------------------------------------------------------------------
  // Team registry
  // ---------------------------------------------------------------------

  /** Some team in the list has exactly this name. */
  predicate HasName(teams: seq<Team>, name: string) {
    exists i :: 0 <= i < |teams| && teams[i].name == name
  }

  /** No two teams in the list share a name. */
  predicate UniqueNames(teams: seq<Team>) {
    forall i, j :: 0 <= i < j < |teams| ==> teams[i].name != teams[j].name
  }

  /** Two teams agree on everything the data supplies (name and code). */
  predicate SameRecord(a: Team, b: Team) {
    a.name == b.name && a.code == b.code
  }

  /** The scan for an existing team of the same name, as load_teams runs it:
      over the whole list, without stopping at the first hit. */
  method FindName(teams: seq<Team>, name: string) returns (found: bool)
    ensures found <==> HasName(teams, name)
  {
    found := false;
    for i := 0 to |teams|
      invariant found <==> exists j :: 0 <= j < i && teams[j].name == name
    {
      if teams[i].name == name {
        found := true;
      }
    }
  }

  /** The position of the first team with this name. */
  function FirstIndex(teams: seq<Team>, name: string): (j: nat)
    requires HasName(teams, name)
    ensures j < |teams| && teams[j].name == name
    ensures forall i :: 0 <= i < j ==> teams[i].name != name
  {
    if teams[0].name == name then 0
    else
      assert HasName(teams[1..], name) by {
        var i :| 0 <= i < |teams| && teams[i].name == name;
        assert teams[1..][i - 1].name == name;
      }
      1 + FirstIndex(teams[1..], name)
  }

  /** One roster entry: skipped when its name is already registered,
      otherwise appended with the interim id `len as i32 + 1` (a release
      build's wrapping add). */
  function AddTeam(acc: seq<Team>, t: Team): seq<Team> {
    if HasName(acc, t.name) then acc else acc + [t.(id := AsI32(AsI32(|acc|) + 1))]
  }

  /** The roster entries registered one after the other. */
  function AddTeams(acc: seq<Team>, ts: seq<Team>): seq<Team>
    decreases |ts|
  {
    if |ts| == 0 then acc else AddTeam(AddTeams(acc, ts[..|ts| - 1]), ts[|ts| - 1])
  }

  /** The roster entries a file contributes: its clubs when its path names
      a roster and it decoded as one. */
  function RosterTeams(f: SourceFile): seq<Team> {
    if IsRosterFile(f) && f.asTeamList.Some? then f.asTeamList.value.teams else []
  }

  /** The final pass of load_teams: each team's id becomes its position. */
  function Renumber(ts: seq<Team>): (r: seq<Team>)
    ensures |r| == |ts|
    ensures forall i :: 0 <= i < |ts| ==> r[i] == ts[i].(id := AsI32(i))
  {
    seq(|ts|, i requires 0 <= i < |ts| => ts[i].(id := AsI32(i)))
  }

  /** load_teams: nothing when not initialized; otherwise every roster entry
      of every roster file is registered after the existing teams, and then
      the ids are renumbered from 0. */
  function LoadTeams(l: JsonLoader): (r: (JsonLoader, Option<seq<Team>>))
    ensures !l.isInitialized ==> r == (l, None)
    ensures l.isInitialized ==> r.1 == Some(r.0.teams) && r.0 == l.(teams := r.0.teams)
  {
    if !l.isInitialized then (l, None)
    else
      var ts := Renumber(AddTeams(l.teams, Gather(l.files, RosterTeams)));
      var l' := l.(teams := ts);
      (l', Some(GetTeams(l')))
  }

  /** Registration only appends: the existing list is a prefix of the result,
      and each appended team carries the interim id of its position + 1. */
  lemma {:induction false} AddTeamsExtends(acc: seq<Team>, ts: seq<Team>)
    ensures |acc| <= |AddTeams(acc, ts)|
    ensures AddTeams(acc, ts)[..|acc|] == acc
    ensures forall k :: |acc| <= k < |AddTeams(acc, ts)| ==> AddTeams(acc, ts)[k].id == AsI32(AsI32(k) + 1)
    decreases |ts|
  {
    if |ts| > 0 {
      AddTeamsExtends(acc, ts[..|ts| - 1]);
    }
  }

  /** The registered names are the existing names plus the names of the entries. */
  lemma {:induction false} AddTeamsNames(acc: seq<Team>, ts: seq<Team>, n: string)
    ensures HasName(AddTeams(acc, ts), n) <==> HasName(acc, n) || HasName(ts, n)
    decreases |ts|
  {
    if |ts| > 0 {
      var init := ts[..|ts| - 1];
      var r' := AddTeams(acc, init);
      AddTeamsNames(acc, init, n);
      if HasName(init, n) {
        var i :| 0 <= i < |init| && init[i].name == n;
        assert ts[i].name == n;
      }
      if HasName(ts, n) && !HasName(init, n) {
        var i :| 0 <= i < |ts| && ts[i].name == n;
        assert ts[|ts| - 1].name == n;
        if !HasName(r', n) {
          assert AddTeams(acc, ts)[|r'|].name == n;
        }
      }
      if HasName(AddTeams(acc, ts), n) && !HasName(r', n) {
        assert ts[|ts| - 1].name == n;
      }
      if HasName(r', n) {
        var i :| 0 <= i < |r'| && r'[i].name == n;
        assert AddTeams(acc, ts)[i] == r'[i];
      }
    }
  }

  /** Registration never introduces a second team of the same name. */
  lemma {:induction false} AddTeamsUniqueNames(acc: seq<Team>, ts: seq<Team>)
    requires UniqueNames(acc)
    ensures UniqueNames(AddTeams(acc, ts))
    decreases |ts|
  {
    if |ts| > 0 {
      var r' := AddTeams(acc, ts[..|ts| - 1]);
      AddTeamsUniqueNames(acc, ts[..|ts| - 1]);
      var t := ts[|ts| - 1];
      if !HasName(r', t.name) {
        var r := AddTeams(acc, ts);
        assert r == r' + [t.(id := AsI32(AsI32(|r'|) + 1))];
      }
    }
  }

  /** A name's first position is unchanged by appending. */
  lemma FirstIndexOfPrefix(ts: seq<Team>, x: Team, n: string)
    requires HasName(ts, n)
    ensures HasName(ts + [x], n)
    ensures FirstIndex(ts + [x], n) == FirstIndex(ts, n)
  {
    var j := FirstIndex(ts, n);
    assert (ts + [x])[j].name == n;
  }

  /** Each newly registered team is, apart from its id, the FIRST entry with
      its name; later entries of that name were discarded, whatever their code. */
  lemma {:induction false} AddTeamsFirstSeenWins(acc: seq<Team>, ts: seq<Team>)
    ensures forall k :: |acc| <= k < |AddTeams(acc, ts)| ==>
      && !HasName(acc, AddTeams(acc, ts)[k].name)
      && HasName(ts, AddTeams(acc, ts)[k].name)
      && SameRecord(AddTeams(acc, ts)[k], ts[FirstIndex(ts, AddTeams(acc, ts)[k].name)])
    decreases |ts|
  {
    if |ts| > 0 {
      var init := ts[..|ts| - 1];
      var t := ts[|ts| - 1];
      assert ts == init + [t];
      var r' := AddTeams(acc, init);
      var r := AddTeams(acc, ts);
      AddTeamsFirstSeenWins(acc, init);
      AddTeamsExtends(acc, init);
      forall k | |acc| <= k < |r|
        ensures !HasName(acc, r[k].name) && HasName(ts, r[k].name)
        ensures SameRecord(r[k], ts[FirstIndex(ts, r[k].name)])
      {
        if k < |r'| {
          assert r[k] == r'[k];
          FirstIndexOfPrefix(init, t, r[k].name);
        } else {
          assert r[k].name == t.name && !HasName(r', t.name);
          AddTeamsNames(acc, init, t.name);
          assert ts[|ts| - 1] == t;
          assert FirstIndex(ts, t.name) == |ts| - 1;
        }
      }
    }
  }

  /** Newly registered teams appear in the order their names were first seen. */
  lemma {:induction false} AddTeamsFirstSeenOrder(acc: seq<Team>, ts: seq<Team>)
    ensures forall k :: |acc| <= k < |AddTeams(acc, ts)| ==> HasName(ts, AddTeams(acc, ts)[k].name)
    ensures forall k1, k2 :: |acc| <= k1 < k2 < |AddTeams(acc, ts)| ==>
      FirstIndex(ts, AddTeams(acc, ts)[k1].name) < FirstIndex(ts, AddTeams(acc, ts)[k2].name)
    decreases |ts|
  {
    AddTeamsFirstSeenWins(acc, ts);
    if |ts| > 0 {
      var init := ts[..|ts| - 1];
      var t := ts[|ts| - 1];
      var r' := AddTeams(acc, init);
      var r := AddTeams(acc, ts);
      AddTeamsFirstSeenOrder(acc, init);
      AddTeamsFirstSeenWins(acc, init);
      forall k | |acc| <= k < |r'|
        ensures FirstIndex(ts, r[k].name) == FirstIndex(init, r'[k].name) < |init|
      {
        assert r[k] == r'[k];
        FirstIndexOfPrefix(init, t, r[k].name);
        assert ts == init + [t];
      }
      if |r| > |r'| {
        assert r[|r'|].name == t.name;
        AddTeamsNames(acc, init, t.name);
        assert FirstIndex(ts, t.name) == |init|;
      }
    }
  }

  /** Renumbering keeps every name and code. */
  lemma RenumberKeepsNames(ts: seq<Team>, n: string)
    ensures HasName(Renumber(ts), n) <==> HasName(ts, n)
    ensures UniqueNames(Renumber(ts)) <==> UniqueNames(ts)
  {
    var r := Renumber(ts);
    if HasName(ts, n) {
      var i :| 0 <= i < |ts| && ts[i].name == n;
      assert r[i].name == n;
    }
    if UniqueNames(ts) {
      forall i, j | 0 <= i < j < |r| ensures r[i].name != r[j].name {
        assert r[i].name == ts[i].name && r[j].name == ts[j].name;
      }
    }
    if UniqueNames(r) {
      forall i, j | 0 <= i < j < |ts| ensures ts[i].name != ts[j].name {
        assert r[i].name == ts[i].name && r[j].name == ts[j].name;
      }
    }
  }

  /** Registering entries whose names are all registered changes nothing. */
  lemma {:induction false} AddTeamsNothingNew(acc: seq<Team>, ts: seq<Team>)
    requires forall i :: 0 <= i < |ts| ==> HasName(acc, ts[i].name)
    ensures AddTeams(acc, ts) == acc
    decreases |ts|
  {
    if |ts| > 0 {
      AddTeamsNothingNew(acc, ts[..|ts| - 1]);
      assert HasName(acc, ts[|ts| - 1].name);
    }
  }

  /** load_teams on an initialized loader whose names are distinct keeps
      them distinct, keeps the existing teams (name and code) in their
      places, and gives every team its position as id. */
  lemma LoadTeamsDenseIds(l: JsonLoader)
    requires l.isInitialized && UniqueNames(l.teams)
    ensures var ts := LoadTeams(l).0.teams;
      && UniqueNames(ts)
      && |l.teams| <= |ts|
      && (forall i :: 0 <= i < |l.teams| ==> SameRecord(ts[i], l.teams[i]))
      && (forall i :: 0 <= i < |ts| ==> ts[i].id == AsI32(i))
      && (|ts| <= 0x8000_0000 ==> forall i :: 0 <= i < |ts| ==> ts[i].id == i)
  {
    var entries := Gather(l.files, RosterTeams);
    var r0 := AddTeams(l.teams, entries);
    var ts := LoadTeams(l).0.teams;
    assert ts == Renumber(r0);
    AddTeamsUniqueNames(l.teams, entries);
    RenumberKeepsNames(r0, "");
    AddTeamsExtends(l.teams, entries);
    forall i | 0 <= i < |l.teams| ensures SameRecord(ts[i], l.teams[i]) {
      assert r0[i] == r0[..|l.teams|][i];
    }
  }

  /** A name occurs among the gathered roster entries exactly when some
      file's own roster entries list it. */
  lemma {:induction false} RosterNames(files: seq<SourceFile>, n: string)
    ensures HasName(Gather(files, RosterTeams), n) <==> exists f :: f in files && HasName(RosterTeams(f), n)
    decreases |files|
  {
    if |files| > 0 {
      var init := files[..|files| - 1];
      var last := files[|files| - 1];
      var a := Gather(init, RosterTeams);
      var b := RosterTeams(last);
      RosterNames(init, n);
      GatherSnoc(files, RosterTeams);
      HasNameAppend(a, b, n);
      if exists f :: f in init && HasName(RosterTeams(f), n) {
        var f :| f in init && HasName(RosterTeams(f), n);
        assert f in files;
      }
      if exists f :: f in files && HasName(RosterTeams(f), n) {
        var f :| f in files && HasName(RosterTeams(f), n);
        if f != last {
          assert f in init;
        }
      }
    }
  }

  lemma HasNameAppend(a: seq<Team>, b: seq<Team>, n: string)
    ensures HasName(a + b, n) <==> HasName(a, n) || HasName(b, n)
  {
    if HasName(a + b, n) {
      var i :| 0 <= i < |a + b| && (a + b)[i].name == n;
      if i >= |a| {
        assert b[i - |a|].name == n;
      }
    }
    if HasName(b, n) {
      var i :| 0 <= i < |b| && b[i].name == n;
      assert (a + b)[i + |a|].name == n;
    }
    if HasName(a, n) {
      var i :| 0 <= i < |a| && a[i].name == n;
      assert (a + b)[i].name == n;
    }
  }

  /** A name is registered after load_teams exactly when it was registered
      before or some decoded roster file lists it: no other file adds one. */
  lemma LoadTeamsNames(l: JsonLoader, n: string)
    requires l.isInitialized
    ensures HasName(LoadTeams(l).0.teams, n) <==>
      HasName(l.teams, n) || exists f :: f in l.files && HasName(RosterTeams(f), n)
  {
    var entries := Gather(l.files, RosterTeams);
    var r0 := AddTeams(l.teams, entries);
    assert LoadTeams(l).0.teams == Renumber(r0);
    RenumberKeepsNames(r0, n);
    AddTeamsNames(l.teams, entries, n);
    RosterNames(l.files, n);
  }

  /** After load_teams every newly registered team is, apart from its id,
      the first roster entry seen with its name, in file order. */
  lemma LoadTeamsFirstSeenWins(l: JsonLoader)
    requires l.isInitialized
    ensures var ts := LoadTeams(l).0.teams; var entries := Gather(l.files, RosterTeams);
      forall k :: |l.teams| <= k < |ts| ==>
        && HasName(entries, ts[k].name)
        && SameRecord(ts[k], entries[FirstIndex(entries, ts[k].name)])
  {
    var entries := Gather(l.files, RosterTeams);
    var r0 := AddTeams(l.teams, entries);
    var ts := LoadTeams(l).0.teams;
    assert ts == Renumber(r0);
    AddTeamsFirstSeenWins(l.teams, entries);
    forall k | |l.teams| <= k < |ts|
      ensures HasName(entries, ts[k].name) && SameRecord(ts[k], entries[FirstIndex(entries, ts[k].name)])
    {
      assert SameRecord(ts[k], r0[k]);
    }
  }

  /** load_teams is idempotent: a second call over the same files finds
      every name registered and only renumbers to the same ids. */
  lemma LoadTeamsIdempotent(l: JsonLoader)
    requires l.isInitialized
    ensures LoadTeams(LoadTeams(l).0) == LoadTeams(l)
  {
    var entries := Gather(l.files, RosterTeams);
    var l1 := LoadTeams(l).0;
    var ts := l1.teams;
    forall i | 0 <= i < |entries| ensures HasName(ts, entries[i].name) {
      assert HasName(entries, entries[i].name);
      AddTeamsNames(l.teams, entries, entries[i].name);
      RenumberKeepsNames(AddTeams(l.teams, entries), entries[i].name);
    }
    AddTeamsNothingNew(ts, entries);
    assert Renumber(ts) == ts;
  }

  /** The registry's name lookup: the id of the first team with exactly this name. */
  function TeamIdFromName(teams: seq<Team>, name: string): (r: Option<int>)
    ensures r.Some? <==> HasName(teams, name)
    ensures r.Some? ==> exists i :: 0 <= i < |teams| && teams[i].name == name && teams[i].id == r.value
    decreases |teams|
  {
    if |teams| == 0 then None
    else if teams[0].name == name then Some(teams[0].id)
    else
      var r := TeamIdFromName(teams[1..], name);
      assert HasName(teams[1..], name) ==> HasName(teams, name) by {
        if HasName(teams[1..], name) {
          var i :| 0 <= i < |teams[1..]| && teams[1..][i].name == name;
          assert teams[i + 1].name == name;
        }
      }
      assert HasName(teams, name) ==> HasName(teams[1..], name) by {
        if HasName(teams, name) {
          var i :| 0 <= i < |teams| && teams[i].name == name;
          assert teams[1..][i - 1].name == name;
        }
      }
      assert r.Some? ==> exists i :: 0 <= i < |teams| && teams[i].name == name && teams[i].id == r.value by {
        if r.Some? {
          var i :| 0 <= i < |teams[1..]| && teams[1..][i].name == name && teams[1..][i].id == r.value;
          assert teams[i + 1] == teams[1..][i];
        }
      }
      r
  }

  /** In a registry whose names are distinct (as after load_teams), every
      team's name resolves to that team's own id, which load_teams makes its
      position. */
  lemma LookupInUniqueRegistry(ts: seq<Team>, i: int)
    requires UniqueNames(ts)
    requires 0 <= i < |ts|
    ensures TeamIdFromName(ts, ts[i].name) == Some(ts[i].id)
  {
  }

  // ---------------------------------------------------------------------
  // Leagues
  // ---------------------------------------------------------------------

  /** The league a file contributes: its decoded league when its path names
      neither a roster nor a group table. */
  function LeagueOf(f: SourceFile): seq<LeagueJsonFormat> {
    if IsLeagueFile(f) && f.asLeague.Some? then [f.asLeague.value] else []
  }

  /** load_leagues: nothing when not initialized; otherwise the decoded
      league files are appended in file order. */
  function LoadLeagues(l: JsonLoader): (r: (JsonLoader, Option<seq<LeagueJsonFormat>>))
    ensures !l.isInitialized ==> r == (l, None)
    ensures l.isInitialized ==> r.1 == Some(r.0.leagues) && r.0 == l.(leagues := r.0.leagues)
  {
    if !l.isInitialized then (l, None)
    else
      var ls := l.leagues + Gather(l.files, LeagueOf);
      (l.(leagues := ls), Some(ls))
  }

  /** load_leagues keeps the existing leagues and appends, in file order,
      exactly the decoded leagues of files whose path contains neither
      "clubs" nor "groups". */
  lemma LoadLeaguesAppends(l: JsonLoader, a: seq<SourceFile>, b: seq<SourceFile>, x: LeagueJsonFormat)
    requires l.isInitialized && l.files == a + b
    ensures LoadLeagues(l).0.leagues == l.leagues + Gather(a, LeagueOf) + Gather(b, LeagueOf)
    ensures x in Gather(l.files, LeagueOf) <==>
      exists i :: 0 <= i < |l.files| && IsLeagueFile(l.files[i]) && l.files[i].asLeague == Some(x)
  {
    GatherAppend(a, b, LeagueOf);
    GatherMembership(l.files, LeagueOf, x);
  }

  /** A single file contributes its league exactly when it is a league file
      and decoded. */
  lemma LeagueOfOneFile(f: SourceFile)
    ensures Gather([f], LeagueOf) == (if IsLeagueFile(f) && f.asLeague.Some? then [f.asLeague.value] else [])
  {
    GatherOne(f, LeagueOf);
  }

  /** Unlike load_teams, load_leagues is not idempotent: a second call
      appends the same leagues again. */
  lemma LoadLeaguesTwice(l: JsonLoader)
    requires l.isInitialized
    ensures LoadLeagues(LoadLeagues(l).0).0.leagues == l.leagues + Gather(l.files, LeagueOf) + Gather(l.files, LeagueOf)
  {
  }

  /** load_leagues never changes an id: if the existing leagues and every
      decoded league carry the id `id`, so does every loaded league. */
  lemma LoadLeaguesKeepsIds(l: JsonLoader, id: int)
    requires l.isInitialized
    requires forall i :: 0 <= i < |l.leagues| ==> l.leagues[i].LeagueId() == id
    requires forall i :: 0 <= i < |l.files| && l.files[i].asLeague.Some? ==> l.files[i].asLeague.value.LeagueId() == id
    ensures forall k :: 0 <= k < |GetLeagues(LoadLeagues(l).0)| ==> GetLeagues(LoadLeagues(l).0)[k].LeagueId() == id
  {
    var g := Gather(l.files, LeagueOf);
    var ls := l.leagues + g;
    assert GetLeagues(LoadLeagues(l).0) == ls;
    forall k | 0 <= k < |g| ensures g[k].LeagueId() == id {
      GatherMembership(l.files, LeagueOf, g[k]);
    }
    forall k | 0 <= k < |ls| ensures ls[k].LeagueId() == id {
      if k >= |l.leagues| {
        assert ls[k] == g[k - |l.leagues|];
      }
    }
  }

  /** The loader's invariant: registered names are distinct. */
  predicate Consistent(l: JsonLoader) {
    UniqueNames(l.teams)
  }

  /** Every operation of the loader keeps it consistent, and an uninitialized
      loader's load operations return nothing and change nothing. */
  lemma OperationsKeepConsistent(l: JsonLoader, scan: Option<seq<SourceFile>>)
    requires Consistent(l)
    ensures Consistent(NewLoader())
    ensures Consistent(Init(l, scan).0)
    ensures Consistent(LoadTeams(l).0)
    ensures Consistent(LoadLeagues(l).0)
    ensures !l.isInitialized ==> LoadTeams(l) == (l, None) && LoadLeagues(l) == (l, None)
  {
    if l.isInitialized {
      LoadTeamsDenseIds(l);
    }
  }
}
