// Turning a game record into the command that starts it: resolveLaunchCommand,
// normalizeWorkingDir and the record normalization withDefaults,
// electron/main.js lines 112-163.

module Launch {
  import opened Text
  import opened CommandLine
  import opened SteamId
  import opened Records

  /** What is handed to the operating system: a target and its arguments. */
  datatype LaunchCommand = LaunchCommand(execPath: string, args: seq<string>)

  /** resolveLaunchCommand: the normalized target, and then, first rule that
      applies: a URI target takes no arguments; explicit arguments are used
      as they are; a target that names an existing file is kept whole; a
      target that reads as a command line of several words is split into
      program and arguments; otherwise the target is kept whole.
      `files` is the set of paths `fs.existsSync` accepts. */
  function ResolveLaunchCommand(game: Game, files: set<string>): (r: LaunchCommand)
    ensures var p := NormalizeExecPath(game.execPath, game.steamAppId);
      IsUriLaunchPath(p) ==> r == LaunchCommand(p, [])
    ensures var p := NormalizeExecPath(game.execPath, game.steamAppId);
      !IsUriLaunchPath(p) && NormalizeArgs(game.args) != [] ==> r == LaunchCommand(p, NormalizeArgs(game.args))
    ensures var p := NormalizeExecPath(game.execPath, game.steamAppId);
      !IsUriLaunchPath(p) && NormalizeArgs(game.args) == [] && p in files ==> r == LaunchCommand(p, [])
    ensures var p := NormalizeExecPath(game.execPath, game.steamAppId);
      !IsUriLaunchPath(p) && NormalizeArgs(game.args) == [] && p !in files && |Tokenize(p)| > 1 ==>
        [r.execPath] + r.args == Tokenize(p)
    ensures var p := NormalizeExecPath(game.execPath, game.steamAppId);
      !IsUriLaunchPath(p) && NormalizeArgs(game.args) == [] && p !in files && |Tokenize(p)| <= 1 ==>
        r == LaunchCommand(p, [])
  {
    ResolveTarget(NormalizeExecPath(game.execPath, game.steamAppId), NormalizeArgs(game.args), files)
  }

  /** The rules of `ResolveLaunchCommand` once the target is normalized and
      the arguments are a list. A split target is the program followed by
      its arguments. */
  function ResolveTarget(execPath: string, normalizedArgs: seq<string>, files: set<string>): (r: LaunchCommand)
    ensures !IsUriLaunchPath(execPath) && normalizedArgs == [] && execPath !in files && |Tokenize(execPath)| > 1 ==>
      [r.execPath] + r.args == Tokenize(execPath)
  {
    if IsUriLaunchPath(execPath) then LaunchCommand(execPath, [])
    else if |normalizedArgs| > 0 then LaunchCommand(execPath, normalizedArgs)
    else if execPath in files then LaunchCommand(execPath, normalizedArgs)
    else
      var parts := Tokenize(execPath);
      if |parts| <= 1 then LaunchCommand(execPath, normalizedArgs)
      else
        assert [parts[0]] + parts[1..] == parts;
        LaunchCommand(parts[0], parts[1..])
  }

  /** A game with a Steam app id in its id field is started through its
      Steam launch URI, whatever its path, arguments or the file system say. */
  lemma {:induction false} ResolveSteamGame(game: Game, files: set<string>)
    requires GetAppIdFromValue(game.steamAppId) != []
    ensures ResolveLaunchCommand(game, files) == LaunchCommand(SteamUri(GetAppIdFromValue(game.steamAppId)), [])
  {
    SteamTargetIsUri(game.execPath, game.steamAppId);
  }

  /** The program to start is empty exactly when the normalized target is:
      splitting never yields an empty program name. */
  lemma {:induction false} ResolveEmptyIff(game: Game, files: set<string>)
    ensures ResolveLaunchCommand(game, files).execPath == [] <==>
      NormalizeExecPath(game.execPath, game.steamAppId) == []
  {
  }

  /** Explicit arguments given as one text are split on spaces and used, the
      target untouched, unless the target is a URI. */
  lemma {:induction false} ResolveWithArgText(game: Game, files: set<string>, words: seq<string>)
    requires words != []
    requires forall i :: 0 <= i < |words| ==> words[i] != [] && IsTrimmed(words[i]) && ' ' !in words[i]
    requires game.args == ArgText(JoinWith(words, ' '))
    requires !IsUriLaunchPath(NormalizeExecPath(game.execPath, game.steamAppId))
    ensures ResolveLaunchCommand(game, files) == LaunchCommand(NormalizeExecPath(game.execPath, game.steamAppId), words)
  {
    ArgTextRoundTrip(words);
  }

  /** A target without an id that is not a file and reads as a command line
      of several lexemes separated by whitespace starts the first lexeme's
      word with the others' as arguments. */
  lemma {:induction false} ResolveSplitsCommandLine(game: Game, files: set<string>,
    es: seq<string>, ts: seq<string>, seps: seq<string>)
    requires |es| >= 2 && |ts| == |es| && |seps| == |es| - 1
    requires forall i :: 0 <= i < |es| ==> Lexes(es[i], ts[i])
    requires forall i :: 0 <= i < |seps| ==> IsBlank(seps[i])
    requires game.execPath == Glue(es, seps) && IsTrimmed(game.execPath)
    requires GetAppIdFromValue(game.steamAppId) == [] && GetAppIdFromValue(game.execPath) == []
    requires !IsUriLaunchPath(game.execPath)
    requires NormalizeArgs(game.args) == [] && game.execPath !in files
    ensures ResolveLaunchCommand(game, files) == LaunchCommand(ts[0], ts[1..])
  {
    var p := NormalizeExecPath(game.execPath, game.steamAppId);
    assert p == game.execPath;
    TokenizeGlue(es, ts, seps);
    assert Tokenize(p) == ts;
    var r := ResolveTarget(p, [], files);
    assert [r.execPath] + r.args == ts;
    assert r.args == ([r.execPath] + r.args)[1..];
  }

  /** normalizeWorkingDir: the trimmed working directory when it is not
      blank, and the empty string otherwise. The target is not consulted. */
  function NormalizeWorkingDir(workingDir: string, execPath: string): (r: string)
    ensures r == Trim(workingDir)
    ensures IsTrimmed(r)
    ensures r == [] <==> AllSpace(workingDir)
    ensures IsTrimmed(workingDir) ==> r == workingDir
  {
    var preferred := Trim(workingDir);
    if preferred != [] then preferred else []
  }

  /** The target passed to `normalizeWorkingDir` is not consulted: any two
      targets give the same working directory. */
  lemma {:induction false} WorkingDirIgnoresTarget(workingDir: string, execPath: string, other: string)
    ensures NormalizeWorkingDir(workingDir, execPath) == NormalizeWorkingDir(workingDir, other)
  {
  }

  /** Normalizing a working directory twice changes nothing. */
  lemma {:induction false} WorkingDirIdempotent(workingDir: string, execPath: string, other: string)
    ensures NormalizeWorkingDir(NormalizeWorkingDir(workingDir, execPath), other) == NormalizeWorkingDir(workingDir, execPath)
  {
  }

  /** The placeholder `lastPlayed` of a game never started. */
  const NeverPlayed: string := "???"

  /** withDefaults on the fields modelled: the Steam id is looked for in the
      id field, or in the path when the id field is empty; the path is
      normalized with that id; titles and the working directory are trimmed;
      the arguments become a list; a missing id becomes the time `now`, a
      missing `lastPlayed` the placeholder. `WithDefaultsNormalized` states
      what this makes of a record. */
  function WithDefaults(raw: Game, now: int): (r: Game)
    ensures r.id == if raw.id != 0 then raw.id else now
    ensures r.steamAppId == GetAppIdFromValue(if raw.steamAppId != [] then raw.steamAppId else raw.execPath)
    ensures r.execPath == NormalizeExecPath(raw.execPath, r.steamAppId)
    ensures r.workingDir == NormalizeWorkingDir(raw.workingDir, r.execPath)
    ensures r.title == Trim(raw.title) && r.titleEn == Trim(raw.titleEn)
    ensures r.args == ArgList(NormalizeArgs(raw.args))
    ensures r.lastPlayed == if raw.lastPlayed != [] then raw.lastPlayed else NeverPlayed
    ensures r.isRecent == raw.isRecent
  {
    var idSource := if raw.steamAppId != [] then raw.steamAppId else raw.execPath;
    var steamAppId := GetAppIdFromValue(idSource);
    var normalizedExecPath := NormalizeExecPath(raw.execPath, steamAppId);
    Game(
      if raw.id != 0 then raw.id else now,
      Trim(raw.title),
      Trim(raw.titleEn),
      steamAppId,
      normalizedExecPath,
      ArgList(NormalizeArgs(raw.args)),
      NormalizeWorkingDir(raw.workingDir, normalizedExecPath),
      if raw.lastPlayed != [] then raw.lastPlayed else NeverPlayed,
      raw.isRecent)
  }

  /** A normalized record has an id unless both the record's id and the time
      are zero; its Steam id is empty or digits, and when it is not empty the
      path is that id's launch URI; `lastPlayed` is never empty. */
  lemma {:induction false} WithDefaultsNormalized(raw: Game, now: int)
    ensures var r := WithDefaults(raw, now);
      && (r.id != 0 <==> raw.id != 0 || now != 0)
      && (r.steamAppId == [] || IsDigits(r.steamAppId))
      && (r.steamAppId != [] ==> r.execPath == SteamUri(r.steamAppId))
      && r.lastPlayed != []
  {
    var r := WithDefaults(raw, now);
    AppIdOfDigitsOrEmpty(r.steamAppId);
  }

  /** The titles, path and working directory of a normalized record are
      trimmed. */
  lemma {:induction false} WithDefaultsTrimmed(raw: Game, now: int)
    ensures var r := WithDefaults(raw, now);
      && IsTrimmed(r.title) && IsTrimmed(r.titleEn) && IsTrimmed(r.execPath) && IsTrimmed(r.workingDir)
  {
    var r := WithDefaults(raw, now);
    assert r.title == Trim(raw.title) && r.titleEn == Trim(raw.titleEn);
    assert r.workingDir == Trim(raw.workingDir);
    assert IsTrimmed(r.execPath);
  }

  /** The titles and working directory of a normalized record are empty
      exactly when they were blank. */
  lemma {:induction false} WithDefaultsBlank(raw: Game, now: int)
    ensures var r := WithDefaults(raw, now);
      && (r.title == [] <==> AllSpace(raw.title))
      && (r.titleEn == [] <==> AllSpace(raw.titleEn))
      && (r.workingDir == [] <==> AllSpace(raw.workingDir))
  {
    var r := WithDefaults(raw, now);
    assert r.title == Trim(raw.title) && r.titleEn == Trim(raw.titleEn);
    assert r.workingDir == Trim(raw.workingDir);
  }

  /** An id found once is found again: the id of a digit run is itself. */
  lemma {:induction false} AppIdOfDigitsOrEmpty(id: string)
    requires id == [] || IsDigits(id)
    ensures GetAppIdFromValue(id) == id
  {
    if id != [] {
      AppIdOfDigits(id);
    } else {
      assert AllSpace(id);
    }
  }

  /** A normalized record is normalized again to itself, provided it got an
      id at the first pass and its Steam id field was empty or carried an id
      (a non-empty id field without an id hides an id in the path from
      `steamAppId` but not from `execPath`). */
  lemma {:induction false} WithDefaultsIdempotent(raw: Game, now: int, later: int)
    requires raw.id != 0 || now != 0
    requires raw.steamAppId == [] || GetAppIdFromValue(raw.steamAppId) != []
    ensures WithDefaults(WithDefaults(raw, now), later) == WithDefaults(raw, now)
  {
    var r := WithDefaults(raw, now);
    AppIdOfDigitsOrEmpty(r.steamAppId);
    if r.steamAppId == [] {
      assert GetAppIdFromValue(raw.execPath) == [];
      AppIdIgnoresTrim(raw.execPath);
      assert r.execPath == Trim(raw.execPath);
    } else {
      assert GetAppIdFromValue(r.steamAppId) == r.steamAppId;
    }
    TrimIdempotent(raw.title);
    TrimIdempotent(raw.titleEn);
  }
}
