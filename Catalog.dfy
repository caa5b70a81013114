// The game catalog as an in-memory list: the list logic of the games:add,
// games:remove and games:launch handlers and the de-duplication of scan
// results, electron/main.js lines 544-550, 1289-1318 and 1411-1451. Reading
// and writing the JSON file is left out: a handler takes the stored list and
// returns the list it would write.

module Catalog {
  import opened Text
  import opened CommandLine
  import opened SteamId
  import opened Launch
  import opened Maybe
  import opened Records

  /** No two games share a path once `lower` (the program's `toLowerCase`)
      is applied: the invariant the duplicate check on add protects. */
  ghost predicate UniquePaths(games: seq<Game>, lower: string -> string) {
    forall i, j :: 0 <= i < j < |games| ==> lower(games[i].execPath) != lower(games[j].execPath)
  }

  // ---------------------------------------------------------------------
  // games:remove
  // ---------------------------------------------------------------------

  /** games:remove: every game with the given id goes, every other game
      stays. */
  function RemoveGame(games: seq<Game>, id: int): (r: seq<Game>)
    ensures forall g :: g in r <==> g in games && g.id != id
    ensures |r| <= |games|
  {
    if games == [] then []
    else if games[0].id != id then [games[0]] + RemoveGame(games[1..], id)
    else RemoveGame(games[1..], id)
  }

  /** games:remove is a filter: it treats the parts of a list one after the
      other, so the games it keeps stay in their order, each as often as it
      was stored (`RemoveOne` says what happens to each game). */
  lemma {:induction false} RemoveAppend(a: seq<Game>, b: seq<Game>, id: int)
    ensures RemoveGame(a + b, id) == RemoveGame(a, id) + RemoveGame(b, id)
    decreases |a|
  {
    if a == [] {
      assert a + b == b;
    } else {
      assert (a + b)[1..] == a[1..] + b;
      RemoveAppend(a[1..], b, id);
    }
  }

  /** A single game is kept exactly when its id differs. */
  lemma {:induction false} RemoveOne(g: Game, id: int)
    ensures RemoveGame([g], id) == if g.id == id then [] else [g]
  {
    assert [g][1..] == [];
  }

  /** How many games carry the id. */
  function CountId(games: seq<Game>, id: int): nat {
    if games == [] then 0
    else (if games[0].id == id then 1 else 0) + CountId(games[1..], id)
  }

  /** Exactly the games with the id are dropped. */
  lemma {:induction false} RemoveCount(games: seq<Game>, id: int)
    ensures |RemoveGame(games, id)| == |games| - CountId(games, id)
  {
    if games != [] {
      RemoveCount(games[1..], id);
    }
  }

  /** Removing an id nobody has changes nothing. */
  lemma {:induction false} RemoveAbsent(games: seq<Game>, id: int)
    requires forall i :: 0 <= i < |games| ==> games[i].id != id
    ensures RemoveGame(games, id) == games
  {
    if games != [] {
      RemoveAbsent(games[1..], id);
    }
  }

  /** Removing keeps the catalog free of duplicate paths. */
  lemma {:induction false} RemovePreservesUniquePaths(games: seq<Game>, id: int, lower: string -> string)
    requires UniquePaths(games, lower)
    ensures UniquePaths(RemoveGame(games, id), lower)
  {
    if games != [] {
      UniqueUncons(games, lower);
      RemovePreservesUniquePaths(games[1..], id, lower);
      if games[0].id != id {
        UniqueCons(games[0], RemoveGame(games[1..], id), lower);
      }
    }
  }

  /** The tail of a list without duplicate paths has none either, and none
      of its paths is the head's. */
  lemma {:induction false} UniqueUncons(games: seq<Game>, lower: string -> string)
    requires games != [] && UniquePaths(games, lower)
    ensures UniquePaths(games[1..], lower)
    ensures forall g :: g in games[1..] ==> lower(g.execPath) != lower(games[0].execPath)
  {
    var t := games[1..];
    forall i, j | 0 <= i < j < |t| ensures lower(t[i].execPath) != lower(t[j].execPath) {
      assert t[i] == games[i + 1] && t[j] == games[j + 1];
    }
    forall g | g in t ensures lower(g.execPath) != lower(games[0].execPath) {
      var k :| 0 <= k < |t| && t[k] == g;
      assert games[k + 1] == g;
    }
  }

  /** A game put in front of a list without duplicate paths, whose path no
      game of the list has, keeps the list free of duplicates. */
  lemma {:induction false} UniqueCons(g: Game, rest: seq<Game>, lower: string -> string)
    requires UniquePaths(rest, lower)
    requires forall x :: x in rest ==> lower(x.execPath) != lower(g.execPath)
    ensures UniquePaths([g] + rest, lower)
  {
    var r := [g] + rest;
    forall i, j | 0 <= i < j < |r| ensures lower(r[i].execPath) != lower(r[j].execPath) {
      assert r[j] == rest[j - 1];
      if i > 0 {
        assert r[i] == rest[i - 1];
      }
    }
  }

  // ---------------------------------------------------------------------
  // Marking a game launched (games:launch, on success)
  // ---------------------------------------------------------------------

  /** Every game with the id gets `lastPlayed` set to the launch time and
      `isRecent` set; nothing else in the catalog changes. */
  function MarkLaunched(games: seq<Game>, id: int, nowIso: string): (r: seq<Game>)
    ensures |r| == |games|
    ensures forall i :: 0 <= i < |games| && games[i].id == id ==> r[i].lastPlayed == nowIso && r[i].isRecent
    ensures forall i :: 0 <= i < |games| && games[i].id != id ==> r[i] == games[i]
    ensures forall i :: 0 <= i < |games| ==>
      r[i].(lastPlayed := games[i].lastPlayed, isRecent := games[i].isRecent) == games[i]
  {
    seq(|games|, i requires 0 <= i < |games| =>
      if games[i].id == id then games[i].(lastPlayed := nowIso, isRecent := true) else games[i])
  }

  /** Stamping the same launch twice is stamping it once. */
  lemma {:induction false} MarkLaunchedIdempotent(games: seq<Game>, id: int, nowIso: string)
    ensures MarkLaunched(MarkLaunched(games, id, nowIso), id, nowIso) == MarkLaunched(games, id, nowIso)
  {
    var r := MarkLaunched(games, id, nowIso);
    var rr := MarkLaunched(r, id, nowIso);
    forall i | 0 <= i < |games| ensures rr[i] == r[i] {
      assert r[i].id == games[i].id by {
        assert r[i].(lastPlayed := games[i].lastPlayed, isRecent := games[i].isRecent).id == games[i].id;
      }
    }
  }

  /** A launch stamp never changes how any game is launched. */
  lemma {:induction false} MarkLaunchedKeepsLaunch(games: seq<Game>, id: int, nowIso: string, files: set<string>, i: nat)
    requires i < |games|
    ensures ResolveLaunchCommand(MarkLaunched(games, id, nowIso)[i], files) == ResolveLaunchCommand(games[i], files)
  {
    var r := MarkLaunched(games, id, nowIso);
    assert r[i].(lastPlayed := games[i].lastPlayed, isRecent := games[i].isRecent) == games[i];
  }

  // ---------------------------------------------------------------------
  // games:add
  // ---------------------------------------------------------------------

  datatype AddError = MissingTitle | MissingExecPath

  /** The reply of games:add: an error, the game already stored under the
      same path (`duplicate: true`), or the newly stored game. */
  datatype AddOutcome = Rejected(error: AddError) | Duplicate(existing: Game) | Added(game: Game)

  /** The reply and the catalog afterwards. */
  datatype AddResult = AddResult(outcome: AddOutcome, games: seq<Game>)

  /** `games.find` on the lower-cased path: the first game from index `from`
      on whose lower-cased path is `key`. */
  function FindByPath(games: seq<Game>, key: string, lower: string -> string, from: nat): (r: Option<nat>)
    ensures r.Some? ==> from <= r.value < |games| && lower(games[r.value].execPath) == key
    ensures r.Some? ==> forall j :: from <= j < r.value ==> lower(games[j].execPath) != key
    ensures r.None? ==> forall j :: from <= j < |games| ==> lower(games[j].execPath) != key
    decreases |games| - from
  {
    if from >= |games| then None
    else if lower(games[from].execPath) == key then Some(from)
    else FindByPath(games, key, lower, from + 1)
  }

  /** games:add. The record is normalized with `WithDefaults`; it is refused
      when both titles are blank or the normalized path is empty; a game
      already stored under the same path, compared lower-cased, is returned
      instead of adding a second one; otherwise the record is appended.
      `now` stands for `Date.now()` and `lower` for `toLowerCase`. */
  function AddGame(games: seq<Game>, raw: Game, now: int, lower: string -> string): (r: AddResult)
    ensures r.outcome == Rejected(MissingTitle) <==> AllSpace(raw.title) && AllSpace(raw.titleEn)
    ensures r.outcome == Rejected(MissingExecPath) <==>
      !(AllSpace(raw.title) && AllSpace(raw.titleEn)) && WithDefaults(raw, now).execPath == []
    ensures !r.outcome.Added? ==> r.games == games
    ensures r.outcome.Duplicate? ==>
      r.outcome.existing in games && lower(r.outcome.existing.execPath) == lower(WithDefaults(raw, now).execPath)
    ensures r.outcome.Added? <==>
      !(AllSpace(raw.title) && AllSpace(raw.titleEn)) && WithDefaults(raw, now).execPath != []
      && forall i :: 0 <= i < |games| ==> lower(games[i].execPath) != lower(WithDefaults(raw, now).execPath)
    ensures r.outcome.Added? ==> r.outcome.game == WithDefaults(raw, now) && r.games == games + [r.outcome.game]
  {
    AddPayload(games, WithDefaults(raw, now), lower)
  }

  /** games:add once the record is normalized. */
  function AddPayload(games: seq<Game>, payload: Game, lower: string -> string): (r: AddResult)
    ensures r.outcome == Rejected(MissingTitle) <==> payload.title == [] && payload.titleEn == []
    ensures r.outcome == Rejected(MissingExecPath) <==>
      !(payload.title == [] && payload.titleEn == []) && payload.execPath == []
    ensures !r.outcome.Added? ==> r.games == games
    ensures r.outcome.Duplicate? ==>
      r.outcome.existing in games && lower(r.outcome.existing.execPath) == lower(payload.execPath)
    ensures r.outcome.Duplicate? ==> (FindByPath(games, lower(payload.execPath), lower, 0).Some?
      && r.outcome.existing == games[FindByPath(games, lower(payload.execPath), lower, 0).value])
    ensures r.outcome.Added? <==>
      !(payload.title == [] && payload.titleEn == []) && payload.execPath != []
      && forall i :: 0 <= i < |games| ==> lower(games[i].execPath) != lower(payload.execPath)
    ensures r.outcome.Added? ==> r.outcome.game == payload && r.games == games + [payload]
  {
    if payload.title == [] && payload.titleEn == [] then AddResult(Rejected(MissingTitle), games)
    else if payload.execPath == [] then AddResult(Rejected(MissingExecPath), games)
    else
      match FindByPath(games, lower(payload.execPath), lower, 0)
      case Some(i) => AddResult(Duplicate(games[i]), games)
      case None => AddResult(Added(payload), games + [payload])
  }

  /** Adding never creates two games with the same path. */
  lemma {:induction false} AddPreservesUniquePaths(games: seq<Game>, raw: Game, now: int, lower: string -> string)
    requires UniquePaths(games, lower)
    ensures UniquePaths(AddGame(games, raw, now, lower).games, lower)
  {
    var r := AddGame(games, raw, now, lower);
    if r.outcome.Added? {
      var g := r.games;
      forall i, j | 0 <= i < j < |g| ensures lower(g[i].execPath) != lower(g[j].execPath) {
        if j == |games| {
          assert g[i] == games[i];
        } else {
          assert g[i] == games[i] && g[j] == games[j];
        }
      }
    }
  }

  /** Adding the same record a second time stores nothing and answers with
      the game the first call stored. */
  lemma {:induction false} AddTwiceIsDuplicate(games: seq<Game>, raw: Game, now: int, later: int, lower: string -> string)
    requires AddGame(games, raw, now, lower).outcome.Added?
    ensures var first := AddGame(games, raw, now, lower);
      AddGame(first.games, raw, later, lower) == AddResult(Duplicate(first.outcome.game), first.games)
  {
    var p := WithDefaults(raw, now);
    var p' := WithDefaults(raw, later);
    assert p'.execPath == p.execPath && p'.title == p.title && p'.titleEn == p.titleEn;
    AddPayloadTwice(games, p, p', lower);
  }

  /** `AddTwiceIsDuplicate` for normalized records with the same titles and
      path. */
  lemma {:induction false} AddPayloadTwice(games: seq<Game>, p: Game, p': Game, lower: string -> string)
    requires AddPayload(games, p, lower).outcome.Added?
    requires p'.execPath == p.execPath && p'.title == p.title && p'.titleEn == p.titleEn
    ensures AddPayload(games + [p], p', lower) == AddResult(Duplicate(p), games + [p])
  {
    var g := games + [p];
    var found := FindByPath(g, lower(p.execPath), lower, 0);
    assert g[|games|] == p;
    assert forall j :: 0 <= j < |games| ==> g[j] == games[j];
    assert found == Some(|games|);
  }

  // ---------------------------------------------------------------------
  // games:launch
  // ---------------------------------------------------------------------

  datatype LaunchError = NotFound | WorkingDirMissing | EmptyPath | ExecutableMissing

  /** What is handed to the shell: a URI to `shell.openExternal`, or a path
      to `shell.openPath` (shortcuts and executables alike; the arguments
      and working directory are not passed on). */
  datatype Opened = OpenExternal(uri: string) | OpenPath(path: string)

  /** The reply of games:launch and, on success, the catalog it writes. */
  datatype LaunchResult = LaunchFailed(error: LaunchError) | Launched(action: Opened, games: seq<Game>)

  /** `games.find` on the id: the first game from index `from` on with the
      id. */
  function FindById(games: seq<Game>, id: int, from: nat): (r: Option<nat>)
    ensures r.Some? ==> from <= r.value < |games| && games[r.value].id == id
    ensures r.Some? ==> forall j :: from <= j < r.value ==> games[j].id != id
    ensures r.None? ==> forall j :: from <= j < |games| ==> games[j].id != id
    decreases |games| - from
  {
    if from >= |games| then None
    else if games[from].id == id then Some(from)
    else FindById(games, id, from + 1)
  }

  /** The game found for an id is its first occurrence. */
  lemma {:induction false} FindFirst(games: seq<Game>, i: nat)
    requires i < |games| && forall j :: 0 <= j < i ==> games[j].id != games[i].id
    ensures FindById(games, games[i].id, 0) == Some(i)
  {
    var found := FindById(games, games[i].id, 0);
    if found.None? || found.value != i {
      assert false;
    }
  }

  /** The target the shell is asked to open. */
  function Target(o: Opened): string {
    match o
    case OpenExternal(uri) => uri
    case OpenPath(path) => path
  }

  /** The working-directory check of games:launch passes for `g`: its
      normalized working directory is blank or exists. */
  predicate WorkingDirPresent(g: Game, present: set<string>) {
    var workingDir := NormalizeWorkingDir(g.workingDir, ResolveLaunchCommand(g, present).execPath);
    workingDir == [] || workingDir in present
  }

  /** games:launch: the first game with the id is resolved; a working
      directory that is given must exist; a URI is opened as such; a path
      must be non-empty and exist. On success every game with the id is
      stamped with the launch time `nowIso`. `present` is the set of paths
      `fs.existsSync` accepts. */
  function LaunchGame(games: seq<Game>, id: int, present: set<string>, nowIso: string): (r: LaunchResult)
    ensures r == LaunchFailed(NotFound) <==> forall i :: 0 <= i < |games| ==> games[i].id != id
    ensures r == LaunchFailed(WorkingDirMissing) <==> (FindById(games, id, 0).Some? &&
      !WorkingDirPresent(games[FindById(games, id, 0).value], present))
    ensures r == LaunchFailed(EmptyPath) <==> (FindById(games, id, 0).Some? &&
      var g := games[FindById(games, id, 0).value];
      var p := ResolveLaunchCommand(g, present).execPath;
      WorkingDirPresent(g, present) && !IsUriLaunchPath(p) && p == [])
    ensures r == LaunchFailed(ExecutableMissing) <==> (FindById(games, id, 0).Some? &&
      var g := games[FindById(games, id, 0).value];
      var p := ResolveLaunchCommand(g, present).execPath;
      WorkingDirPresent(g, present) && !IsUriLaunchPath(p) && p != [] && p !in present)
    ensures r.Launched? <==> (FindById(games, id, 0).Some? &&
      var g := games[FindById(games, id, 0).value];
      var p := ResolveLaunchCommand(g, present).execPath;
      WorkingDirPresent(g, present) && (IsUriLaunchPath(p) || (p != [] && p in present)))
    ensures r.Launched? ==> r.games == MarkLaunched(games, id, nowIso)
    ensures r.Launched? ==> (FindById(games, id, 0).Some?
      && Target(r.action) == ResolveLaunchCommand(games[FindById(games, id, 0).value], present).execPath)
    ensures r.Launched? ==>
      var wd := NormalizeWorkingDir(games[FindById(games, id, 0).value].workingDir, Target(r.action));
      wd == [] || wd in present
    ensures r.Launched? && r.action.OpenExternal? ==> IsUriLaunchPath(r.action.uri)
    ensures r.Launched? && r.action.OpenPath? ==>
      !IsUriLaunchPath(r.action.path) && r.action.path != [] && r.action.path in present
  {
    match FindById(games, id, 0)
    case None => LaunchFailed(NotFound)
    case Some(i) =>
      var launch := ResolveLaunchCommand(games[i], present);
      var workingDir := NormalizeWorkingDir(games[i].workingDir, launch.execPath);
      if workingDir != [] && workingDir !in present then LaunchFailed(WorkingDirMissing)
      else if IsUriLaunchPath(launch.execPath) then
        Launched(OpenExternal(launch.execPath), MarkLaunched(games, id, nowIso))
      else if launch.execPath == [] then LaunchFailed(EmptyPath)
      else if launch.execPath !in present then LaunchFailed(ExecutableMissing)
      else Launched(OpenPath(launch.execPath), MarkLaunched(games, id, nowIso))
  }

  /** A game whose Steam id field carries an id is started by opening its
      Steam launch URI, with no file-system check on the target. */
  lemma {:induction false} LaunchSteamGame(games: seq<Game>, i: nat, present: set<string>, nowIso: string)
    requires i < |games| && forall j :: 0 <= j < i ==> games[j].id != games[i].id
    requires GetAppIdFromValue(games[i].steamAppId) != []
    requires AllSpace(games[i].workingDir) || Trim(games[i].workingDir) in present
    ensures LaunchGame(games, games[i].id, present, nowIso)
      == Launched(OpenExternal(SteamUri(GetAppIdFromValue(games[i].steamAppId))), MarkLaunched(games, games[i].id, nowIso))
  {
    FindFirst(games, i);
    var uri := SteamUri(GetAppIdFromValue(games[i].steamAppId));
    assert ResolveLaunchCommand(games[i], present) == LaunchCommand(uri, []) by {
      ResolveSteamGame(games[i], present);
    }
    SteamUriIsUri(GetAppIdFromValue(games[i].steamAppId));
    var wd := NormalizeWorkingDir(games[i].workingDir, uri);
    assert wd == [] || wd in present;
  }

  /** A path that does not exist is never opened, and the catalog is then
      left as it was. */
  lemma {:induction false} LaunchMissingExecutable(games: seq<Game>, i: nat, present: set<string>, nowIso: string)
    requires i < |games| && forall j :: 0 <= j < i ==> games[j].id != games[i].id
    requires WorkingDirPresent(games[i], present)
    requires var p := ResolveLaunchCommand(games[i], present).execPath; !IsUriLaunchPath(p) && p != [] && p !in present
    ensures LaunchGame(games, games[i].id, present, nowIso) == LaunchFailed(ExecutableMissing)
  {
    FindFirst(games, i);
  }

  // ---------------------------------------------------------------------
  // Scan results: keep the first entry per lower-cased path
  // ---------------------------------------------------------------------

  /** The lower-cased paths of the entries. */
  function PathKeys(games: seq<Game>, lower: string -> string): (r: set<string>)
    ensures forall g :: g in games ==> lower(g.execPath) in r
    ensures forall k :: k in r ==> exists i :: 0 <= i < |games| && lower(games[i].execPath) == k
    decreases |games|
  {
    if games == [] then {}
    else
      var prefix := games[..|games| - 1];
      var r := PathKeys(prefix, lower) + {lower(games[|games| - 1].execPath)};
      assert forall g :: g in games ==> g in prefix || g == games[|games| - 1];
      assert forall i :: 0 <= i < |prefix| ==> games[i] == prefix[i];
      r
  }

  /** The entries kept by the filter of `scanInstalledGames`: an entry is
      kept when no earlier entry had the same lower-cased path. */
  function KeepFirst(games: seq<Game>, lower: string -> string): (r: seq<Game>)
    ensures |r| <= |games|
    ensures forall g :: g in r ==> g in games
    decreases |games|
  {
    if games == [] then []
    else
      var prefix := games[..|games| - 1];
      var g := games[|games| - 1];
      if lower(g.execPath) in PathKeys(prefix, lower) then KeepFirst(prefix, lower)
      else KeepFirst(prefix, lower) + [g]
  }

  /** The filter keeps the input order: what it keeps of a prefix of the
      input is a prefix of what it keeps of the whole input. */
  lemma {:induction false} KeepFirstPrefix(games: seq<Game>, lower: string -> string, i: nat)
    requires i <= |games|
    ensures KeepFirst(games[..i], lower) <= KeepFirst(games, lower)
    decreases |games|
  {
    if i < |games| {
      var prefix := games[..|games| - 1];
      assert games[..i] == prefix[..i];
      KeepFirstPrefix(prefix, lower, i);
    } else {
      assert games[..i] == games;
    }
  }

  /** The filter as the code runs it: one pass with a `seen` set that grows
      as entries are kept. */
  method DedupByPath(games: seq<Game>, lower: string -> string) returns (kept: seq<Game>)
    ensures kept == KeepFirst(games, lower)
  {
    var seen: set<string> := {};
    kept := [];
    for i := 0 to |games|
      invariant kept == KeepFirst(games[..i], lower)
      invariant seen == PathKeys(games[..i], lower)
    {
      assert games[..i + 1][..i] == games[..i];
      var key := lower(games[i].execPath);
      if key !in seen {
        seen := seen + {key};
        kept := kept + [games[i]];
      }
    }
    assert games[..|games|] == games;
  }

  /** The kept entries have the same set of lower-cased paths as the scan. */
  lemma {:induction false} KeepFirstKeys(games: seq<Game>, lower: string -> string)
    ensures PathKeys(KeepFirst(games, lower), lower) == PathKeys(games, lower)
    decreases |games|
  {
    if games != [] {
      var prefix := games[..|games| - 1];
      KeepFirstKeys(prefix, lower);
      var k := KeepFirst(prefix, lower);
      var g := games[|games| - 1];
      if lower(g.execPath) !in PathKeys(prefix, lower) {
        assert (k + [g])[..|k + [g]| - 1] == k;
      }
    }
  }

  /** No two kept entries share a lower-cased path. */
  lemma {:induction false} KeepFirstUnique(games: seq<Game>, lower: string -> string)
    ensures UniquePaths(KeepFirst(games, lower), lower)
    decreases |games|
  {
    if games != [] {
      var prefix := games[..|games| - 1];
      KeepFirstUnique(prefix, lower);
      var k := KeepFirst(prefix, lower);
      var g := games[|games| - 1];
      if lower(g.execPath) !in PathKeys(prefix, lower) {
        KeepFirstKeys(prefix, lower);
        var r := k + [g];
        forall i, j | 0 <= i < j < |r| ensures lower(r[i].execPath) != lower(r[j].execPath) {
          if j == |k| {
            assert r[i] == k[i] && k[i] in k;
          } else {
            assert r[i] == k[i] && r[j] == k[j];
          }
        }
      }
    }
  }

  /** The first entry with a given lower-cased path is kept. */
  lemma {:induction false} KeepFirstKeepsFirsts(games: seq<Game>, lower: string -> string, i: nat)
    requires i < |games|
    requires forall j :: 0 <= j < i ==> lower(games[j].execPath) != lower(games[i].execPath)
    ensures games[i] in KeepFirst(games, lower)
    decreases |games|
  {
    var prefix := games[..|games| - 1];
    if i < |games| - 1 {
      KeepFirstKeepsFirsts(prefix, lower, i);
    } else {
      assert forall j :: 0 <= j < |prefix| ==> prefix[j] == games[j];
      assert lower(games[i].execPath) !in PathKeys(prefix, lower);
    }
  }

  /** Filtering filtered results again changes nothing. */
  lemma {:induction false} KeepFirstIdempotent(games: seq<Game>, lower: string -> string)
    ensures KeepFirst(KeepFirst(games, lower), lower) == KeepFirst(games, lower)
  {
    KeepFirstUnique(games, lower);
    KeepFirstOfUnique(KeepFirst(games, lower), lower);
  }

  /** A list without duplicate paths is kept whole. */
  lemma {:induction false} KeepFirstOfUnique(games: seq<Game>, lower: string -> string)
    requires UniquePaths(games, lower)
    ensures KeepFirst(games, lower) == games
    decreases |games|
  {
    if games != [] {
      var prefix := games[..|games| - 1];
      UniqueUnsnoc(games, lower);
      KeepFirstOfUnique(prefix, lower);
      assert prefix + [games[|games| - 1]] == games;
    }
  }

  /** Dropping the last game of a list without duplicate paths leaves a list
      without duplicates that does not have the last game's path. */
  lemma {:induction false} UniqueUnsnoc(games: seq<Game>, lower: string -> string)
    requires games != [] && UniquePaths(games, lower)
    ensures UniquePaths(games[..|games| - 1], lower)
    ensures lower(games[|games| - 1].execPath) !in PathKeys(games[..|games| - 1], lower)
  {
    var prefix := games[..|games| - 1];
    forall i, j | 0 <= i < j < |prefix| ensures lower(prefix[i].execPath) != lower(prefix[j].execPath) {
      assert prefix[i] == games[i] && prefix[j] == games[j];
    }
    assert forall j :: 0 <= j < |prefix| ==> prefix[j] == games[j];
  }
}
