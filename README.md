# Game launcher core, in Dafny

This project models the launch-path core of a desktop game launcher (an
Electron main process, `electron/main.js`) and proves properties of it:

- how a game record's argument field becomes an argument list (`normalizeArgs`);
- the quote-aware command-line tokenizer (`splitCommandLine`), both as a
  specification function and as the character loop the code runs;
- how a Steam app id is found in a string (`getAppIdFromValue`), how a launch
  target is normalized into a `steam://rungameid/<id>` URI (`normalizeExecPath`),
  and which targets are opened as URIs (`isUriLaunchPath`);
- how a record is turned into the command that starts it (`resolveLaunchCommand`,
  `normalizeWorkingDir`) and how records are normalized (`withDefaults`);
- the list logic of the catalog handlers: `games:add` (with its duplicate-path
  check), `games:remove`, `games:reorder`, `games:launch` (the checks and the
  launch stamp), and the de-duplication of scan results by lower-cased path.

Modules:

- `Text`: JavaScript whitespace, `trim`, digits, and case-insensitive
  matching of ASCII patterns.
- `Records`: the game record.
- `CommandLine`: `normalizeArgs` and the tokenizer.
- `Maybe` and `SteamId`: app ids and launch targets.
- `Launch`: resolving the launch command and normalizing records.
- `Catalog`: the add, remove and launch handlers and the scan de-duplication.
- `Reorder`: the reorder handler.

The handlers are modelled on lists. A handler takes the stored list and
returns the reply together with the list it would write. The reorder loop
is a method whose loop variables are the code's `reordered` list and its
`Map`, the Map being modelled as a key order and a table. The tokenizer and
the scan filter are also methods with loops. Each of these three methods is
proved equal to a specification function, and the properties are proved
about those functions.

An escaped quote keeps its backslash. The tokenizer only declines to open
or close a quote on `\"`; the backslash is an ordinary character and stays
in the token, so `a\"b c` gives `a\"b` and `c`
(`CommandLine.EscapedQuoteKept`).

## Model

| member | source | states |
|---|---|---|
| Text.Trim | electron/main.js:57 | `trim` leaves a string that does not start or end with whitespace; the result is empty exactly when the input is all whitespace; a string already trimmed is returned unchanged |
| Text.TrimCutsOnlySpace | electron/main.js:57 | what `trim` removes from each end is whitespace only: the input is the result with whitespace before and after it |
| Text.TrimIdempotent | electron/main.js:57 | trimming twice is trimming once |
| Text.IsSpace | electron/main.js:76 | the ECMAScript whitespace set that `\s` matches and `trim` removes |
| Text.AsciiLower | electron/main.js:98-100 | an ASCII capital becomes the same letter in lower case, every other character is kept, and digits stay digits, as the `i` flag folds an ASCII pattern |
| Text.MatchesAt | electron/main.js:98-100 | a case-insensitive match ends inside the text, and the lower-case pattern always matches a copy of itself |
| Text.LeadingDigits | electron/main.js:98-101 | the greedy `(\d+)` capture: a prefix of the input, all digits, and followed by a non-digit or by nothing |
| Text.LeadingDigitsOf | electron/main.js:98-101 | a digit run followed by a non-digit is captured exactly |
| Text.MatchesAtAppend | electron/main.js:181 | matching a pattern made of two parts is matching the first part and then the second right after it |
| CommandLine.SplitOn | electron/main.js:52 | `split(' ')` yields at least one piece, and no piece contains the separator |
| CommandLine.JoinSplit | electron/main.js:52 | joining the pieces with the separator gives back the string that was split |
| CommandLine.SplitJoin | electron/main.js:52 | splitting a join of separator-free pieces gives back the pieces |
| CommandLine.TrimAll | electron/main.js:52 | `map((s) => s.trim())` gives one trimmed piece per piece, in the same order |
| CommandLine.DropEmpty | electron/main.js:52 | `filter(Boolean)` keeps no empty string and never grows the list |
| CommandLine.DropEmptyAppend | electron/main.js:52 | the filter works on the parts of a list one after the other, so every non-empty string is kept, in its order |
| CommandLine.DropEmptyOne | electron/main.js:52 | a single string is kept exactly when it is not empty |
| CommandLine.DropEmptyGap | electron/main.js:52 | the empty piece between two words is dropped and the words stay in order |
| CommandLine.ArgTextDoubleSpace | electron/main.js:52 | two words separated by two spaces give exactly those two words |
| CommandLine.CleanPieces | electron/main.js:52 | space-free pieces, trimmed and filtered, are non-empty, trimmed and space-free |
| CommandLine.DropEmptyFrom | electron/main.js:52 | every string kept by the filter is one of its inputs |
| CommandLine.DropEmptyKeeps | electron/main.js:52 | a list with no empty string passes the filter unchanged |
| CommandLine.TrimAllTrimmed | electron/main.js:52 | trimming pieces that are already trimmed changes nothing |
| CommandLine.NormalizeArgs | electron/main.js:50-54 | an array is returned as it is; a missing or non-string value gives no arguments; every argument made from a string is non-empty, trimmed and free of spaces |
| CommandLine.ArgTextRoundTrip | electron/main.js:52 | non-empty trimmed words without spaces, joined by single spaces, come back as the same words |
| CommandLine.ArgTextBlank | electron/main.js:52 | an argument string gives no arguments exactly when it is all whitespace |
| CommandLine.TrimmedPiecesBlank | electron/main.js:52 | trimming the pieces and dropping the empty ones leaves nothing exactly when every piece is blank |
| CommandLine.PiecesBlank | electron/main.js:52 | splitting at a whitespace separator gives only blank pieces exactly when the string is blank |
| CommandLine.Step | electron/main.js:63-85 | one character changes the pushed tokens only at whitespace outside quotes, and then it pushes the non-empty pending token and starts a new one |
| CommandLine.Feed | electron/main.js:63-85 | the tokenizer's state after the characters read so far, one `Step` per character, the escape flag being whether the previous character is a backslash |
| CommandLine.Finish | electron/main.js:87 | the tokens once the input ends: the pushed tokens, followed by the pending token when it is not empty (a definition without a contract) |
| CommandLine.FeedTokensNonEmpty | electron/main.js:76-80 | the tokenizer only ever pushes non-empty tokens |
| CommandLine.Tokenize | electron/main.js:56-89 | every token is non-empty, and a blank input has no tokens |
| CommandLine.TokenizeTrimmed | electron/main.js:57 | on input without surrounding whitespace, tokenizing is reading the input and then pushing the pending token |
| CommandLine.SplitCommandLine | electron/main.js:56-89 | the loop over the trimmed input, which updates `tokens`, `current` and `quote` in place, returns exactly `Tokenize` of the input |
| CommandLine.FeedNext | electron/main.js:63-65 | reading one more character steps from the state after the prefix, with that character's escape flag |
| CommandLine.FeedAppend | electron/main.js:63-85 | once no token is pending and no quote is open, the rest of the input is tokenized as if it stood alone, after the tokens already pushed |
| CommandLine.FeedAppendNext | electron/main.js:63-85 | one inductive step of `FeedAppend`: reading one more character keeps the split into earlier tokens and the tokens of the rest |
| CommandLine.StepShift | electron/main.js:63-85 | a step of the tokenizer never looks at the tokens already pushed |
| CommandLine.FeedBlank | electron/main.js:76-81 | whitespace outside quotes pushes the pending token and adds nothing to it |
| CommandLine.LexemesOf | electron/main.js:56-89 | arguments that each read as one token, with blanks between them, form a run of lexemes |
| CommandLine.FeedGlue | electron/main.js:63-85 | reading lexemes glued by blanks pushes every token but the last and leaves the last one pending |
| CommandLine.FeedArgThenRest | electron/main.js:63-85 | one more lexeme and blank in front of text puts its token before the text's tokens |
| CommandLine.GlueTrimmed | electron/main.js:57 | lexemes glued by blanks start and end with non-whitespace, so `trim` leaves them alone |
| CommandLine.TokenizeGlue | electron/main.js:56-89 | round trip: lexemes separated by any whitespace runs tokenize back to exactly their tokens |
| CommandLine.TokenizeAfterArgs | electron/main.js:56-89 | text after complete lexemes and a blank is tokenized as if it stood alone, after their tokens |
| CommandLine.TokenizeAfterPrefix | electron/main.js:56-89 | text read after a prefix that leaves nothing pending is tokenized as if it stood alone |
| CommandLine.FeedThroughArgs | electron/main.js:76-81 | lexemes followed by a blank leave their tokens pushed, nothing pending and no quote open |
| CommandLine.GlueEnds | electron/main.js:57 | a trimmed text followed by a blank starts with non-whitespace and does not end in a backslash |
| CommandLine.BareWordLexes | electron/main.js:65-84 | a word without whitespace whose quote marks are all escaped reads as one token, itself, backslashes kept |
| CommandLine.FeedBare | electron/main.js:65-84 | every prefix of such a word is the pending token, with no quote open |
| CommandLine.QuotedLexes | electron/main.js:65-73 | a quoted argument reads as one token: the quote marks are dropped and what lies between them is kept, whitespace included |
| CommandLine.FeedOpenQuote | electron/main.js:66-84 | after an opening quote, the characters read so far are the pending token and the quote stays open |
| CommandLine.UnterminatedQuote | electron/main.js:66-87 | an unterminated quote is not an error: the rest of the input becomes the last token |
| CommandLine.QuotedBetweenWords | electron/main.js:56-89 | `a "w" b` with single spaces gives three tokens, the middle one without its quote marks |
| CommandLine.QuotedBetweenWordsGlued | electron/main.js:56-89 | the same three tokens, for the input written as glued lexemes |
| CommandLine.EscapedQuoteKept | electron/main.js:65-84 | two words whose quote marks are escaped give two tokens kept as written, backslashes included |
| CommandLine.TwoWordsGlued | electron/main.js:65-84 | the same two tokens, for the input written as glued lexemes |
| SteamId.SteamUriPrefixUpperCase | electron/main.js:98 | the launch-URI prefix written in capitals, `STEAM://RUNGAMEID/`, still matches |
| SteamId.IsSteamUri | electron/main.js:98 | a string the launch-URI pattern matches is never a bare digit run, so the first two rules never both apply |
| SteamId.StoreUrlAt | electron/main.js:100 | a string the store-page pattern matches is never a bare digit run |
| SteamId.SteamUri | electron/main.js:108 | the canonical launch URI of a digit run matches the launch-URI pattern |
| SteamId.FindStoreUrl | electron/main.js:100 | the search finds the leftmost index where the store-page pattern matches, or reports that it matches nowhere |
| SteamId.GetAppIdFromValue | electron/main.js:93-103 | the id found is always either empty or a run of digits |
| SteamId.AppIdOfTrimmed | electron/main.js:95-102 | the matching part on an already trimmed value gives an empty result or digits |
| SteamId.AppIdIgnoresTrim | electron/main.js:94 | surrounding whitespace never changes the id found |
| SteamId.AppIdAbsent | electron/main.js:95-102 | a value that is not digits, not a Steam launch URI and holds no store-page address has no id |
| SteamId.AppIdOfDigits | electron/main.js:96-97 | a bare digit run is its own id (first rule) |
| SteamId.AppIdOfSteamUri | electron/main.js:98-99 | a `steam://rungameid/` prefix in any letter case, digits and a non-digit tail give those digits (second rule) |
| SteamId.SteamUriParts | electron/main.js:98 | such a string matches the launch-URI pattern, what follows the prefix is the digits and the tail, and the whole is not a digit run |
| SteamId.AppIdOfStoreUrl | electron/main.js:100-101 | a store-page address in any letter case, with no earlier match and no launch-URI prefix, gives its digits (third rule, leftmost match) |
| SteamId.StoreUrlParts | electron/main.js:100 | the marker followed by digits matches where the marker starts, and the whole is not a digit run |
| SteamId.SteamUriTrimmed | electron/main.js:108 | the canonical launch URI of an id has no surrounding whitespace |
| SteamId.SteamUriRoundTrip | electron/main.js:98-108 | the id read back from the canonical launch URI is the id it was made from |
| SteamId.NormalizeExecPath | electron/main.js:105-110 | an id in the Steam id field wins, then an id in the path; either gives the canonical launch URI; otherwise the trimmed path; the result is always trimmed |
| SteamId.NormalizedIdIsCanonical | electron/main.js:105-110 | a normalized path carries no id, or is the canonical launch URI of the id it carries |
| SteamId.NormalizeIdempotent | electron/main.js:105-110 | normalizing a normalized path again without an id field changes nothing |
| SteamId.IsUriLaunchPath | electron/main.js:180-182 | true exactly when the path starts with `steam://`, `http://` or `https://` in any letter case |
| SteamId.SteamUriIsUri | electron/main.js:108 | every canonical launch URI is opened as a URI |
| SteamId.SteamTargetIsUri | electron/main.js:105-110 | a target for which an id was found is opened as a URI |
| Launch.ResolveLaunchCommand | electron/main.js:112-136 | the normalized target, then the first rule that applies: a URI takes no arguments; explicit arguments are used; an existing file is kept whole; a target of several tokens is split into program and arguments; otherwise it is kept whole |
| Launch.ResolveTarget | electron/main.js:127-135 | a target split into several tokens becomes the first token as the program followed by the rest as arguments |
| Launch.ResolveSteamGame | electron/main.js:112-116 | a record whose Steam id field carries an id is launched through its canonical URI with no arguments, whatever its path, arguments or the file system |
| Launch.ResolveEmptyIff | electron/main.js:112-136 | the program to start is empty exactly when the normalized target is empty |
| Launch.ResolveWithArgText | electron/main.js:118-121 | an argument string is split on spaces and used with the target untouched, unless the target is a URI |
| Launch.ResolveSplitsCommandLine | electron/main.js:123-135 | a target that is not a file and reads as several whitespace-separated tokens starts the first token with the others as arguments |
| Launch.NormalizeWorkingDir | electron/main.js:138-142 | the result is the trimmed working directory: trimmed, empty exactly when the input is blank, the input itself when it was trimmed |
| Launch.WorkingDirIgnoresTarget | electron/main.js:138-142 | the target argument is not consulted: any two targets give the same working directory |
| Launch.WorkingDirIdempotent | electron/main.js:138-142 | normalizing a working directory twice changes nothing |
| Launch.WithDefaults | electron/main.js:144-163 | field by field: a missing id becomes the time given; the Steam id is read from the id field, or from the path when the field is empty; the path is normalized with that id; the working directory is normalized; titles are trimmed; arguments become a list; a missing `lastPlayed` becomes the placeholder |
| Launch.WithDefaultsNormalized | electron/main.js:144-163 | a normalized record has an id unless both id and time are zero; its Steam id is empty or digits, and when present the path is its launch URI; `lastPlayed` is never empty |
| Launch.WithDefaultsTrimmed | electron/main.js:144-163 | titles, path and working directory are trimmed |
| Launch.WithDefaultsBlank | electron/main.js:144-163 | titles and working directory are empty exactly when they were blank |
| Launch.AppIdOfDigitsOrEmpty | electron/main.js:145 | an id found once is found again |
| Launch.WithDefaultsIdempotent | electron/main.js:144-163 | normalizing a normalized record again gives the same record |
| Catalog.RemoveGame | electron/main.js:1314-1318 | the games kept are exactly the games without the id |
| Catalog.RemoveAppend | electron/main.js:1315 | `filter` works on the parts of a list one after the other, so the kept games keep their order and multiplicity |
| Catalog.RemoveOne | electron/main.js:1315 | a single game is kept exactly when its id differs |
| Catalog.RemoveCount | electron/main.js:1315 | exactly as many games are dropped as carry the id |
| Catalog.RemoveAbsent | electron/main.js:1315 | removing an id that no game has changes nothing |
| Catalog.RemovePreservesUniquePaths | electron/main.js:1315 | removing keeps the catalog free of duplicate paths |
| Catalog.UniqueUncons | electron/main.js:1315 | the tail of a list without duplicate paths has none either, and none of its paths is the head's |
| Catalog.UniqueCons | electron/main.js:1315 | putting a game with a new path in front of such a list keeps it free of duplicates |
| Catalog.MarkLaunched | electron/main.js:1444-1445 | every game with the id gets the launch time and the recent flag; every other game, and every other field, is unchanged |
| Catalog.MarkLaunchedIdempotent | electron/main.js:1445 | stamping the same launch twice is stamping it once |
| Catalog.MarkLaunchedKeepsLaunch | electron/main.js:1445 | the launch stamp never changes how any game is launched |
| Catalog.FindByPath | electron/main.js:1295 | `find` returns the first game whose lower-cased path is the key, or reports that none has it |
| Catalog.AddGame | electron/main.js:1289-1302 | refused exactly when both titles are blank, or else when the normalized path is empty; a game stored under the same lower-cased path is answered as a duplicate and nothing is stored; otherwise the normalized record is appended |
| Catalog.AddPayload | electron/main.js:1291-1301 | the same decisions on the normalized record; a duplicate answer is the first stored game with that path |
| Catalog.AddPreservesUniquePaths | electron/main.js:1294-1299 | adding never creates two games with the same lower-cased path |
| Catalog.AddTwiceIsDuplicate | electron/main.js:1294-1298 | adding the same record again stores nothing and answers with the game stored the first time |
| Catalog.AddPayloadTwice | electron/main.js:1294-1298 | the same, for normalized records with the same titles and path |
| Catalog.FindById | electron/main.js:1413 | `find` returns the first game with the id, or reports that none has it |
| Catalog.FindFirst | electron/main.js:1413 | the game found for an id is its first occurrence |
| Catalog.LaunchGame | electron/main.js:1411-1451 | for the first game with the id: not found exactly when no game has it; a missing working directory exactly when the normalized working directory is non-blank and absent; an empty path exactly when that check passes and the target is an empty non-URI; a missing executable exactly when it passes and the target is a non-empty non-URI that is absent; launched exactly otherwise, opening the URI or the existing path, and writing the launch stamp |
| Catalog.LaunchSteamGame | electron/main.js:1417-1425 | a game whose Steam id field carries an id is opened through its launch URI with no file-system check on the target |
| Catalog.LaunchMissingExecutable | electron/main.js:1431-1433 | a path target that does not exist is refused when the working directory passes its check, and the catalog is not written |
| Catalog.PathKeys | electron/main.js:546-548 | the set of lower-cased paths: every game's key is in it, and every key in it comes from a game |
| Catalog.KeepFirst | electron/main.js:544-550 | the filter never adds an entry and keeps only entries from its input |
| Catalog.DedupByPath | electron/main.js:544-550 | the filter loop with its `seen` set returns exactly `KeepFirst` of the scan results |
| Catalog.KeepFirstKeys | electron/main.js:544-550 | the kept entries cover the same lower-cased paths as the scan |
| Catalog.KeepFirstUnique | electron/main.js:544-550 | no two kept entries share a lower-cased path |
| Catalog.KeepFirstPrefix | electron/main.js:544-550 | the filter keeps the input order: what it keeps of a prefix of the results is a prefix of what it keeps of all of them |
| Catalog.KeepFirstKeepsFirsts | electron/main.js:544-550 | an entry that is the first with its lower-cased path is kept |
| Catalog.KeepFirstIdempotent | electron/main.js:544-550 | filtering filtered results again changes nothing |
| Catalog.KeepFirstOfUnique | electron/main.js:544-550 | a list without duplicate paths is kept whole |
| Catalog.UniqueUnsnoc | electron/main.js:544-550 | dropping the last entry of a list without duplicate paths leaves one without them that lacks the last entry's path |
| Reorder.MapValues | electron/main.js:1322 | the Map built from the games holds every game's id, each under its own id |
| Reorder.MapValuesFrom | electron/main.js:1322 | every value of the Map is one of the games |
| Reorder.MapKeys | electron/main.js:1322 | the Map's key order holds exactly the Map's keys |
| Reorder.MapKeysDistinct | electron/main.js:1322 | the Map's key order holds each id once |
| Reorder.Lookup | electron/main.js:1331 | looking up keys gives one value per key, in key order |
| Reorder.RemoveKey | electron/main.js:1328 | deleting a key leaves exactly the other keys |
| Reorder.Without | electron/main.js:1328-1331 | the keys left are exactly those not deleted |
| Reorder.Taken | electron/main.js:1324-1330 | the ids moved to the front are exactly the listed ids that are stored ids |
| Reorder.TakenDistinct | electron/main.js:1324-1330 | no id is moved twice: repeated ids are skipped |
| Reorder.TakenInListedOrder | electron/main.js:1324-1330 | the ids are moved in the order they are first listed |
| Reorder.Remaining | electron/main.js:1328 | the table after the deletions holds exactly the keys not deleted, with their values |
| Reorder.ReorderSpec | electron/main.js:1322-1331 | the list written holds only stored games: the listed ones in listed order, then the Map's remaining values in key order |
| Reorder.Moving | electron/main.js:1324-1330 | the loop's state after some ids: at most one game moved per id, and the table only loses keys, keeping the values of the rest |
| Reorder.ReorderGames | electron/main.js:1319-1334 | an argument that is not an array is refused; otherwise the list written is `ReorderSpec`: the listed games in front, then the Map's remaining values in key order |
| Reorder.MoveListed | electron/main.js:1323-1330 | after the loop, the front list holds the taken ids' games, and exactly the taken ids are gone from the key order and the table |
| Reorder.MovingTakes | electron/main.js:1324-1330 | the loop's state after any number of ids, described by the ids taken so far |
| Reorder.ReorderFinish | electron/main.js:1331 | the front list followed by the remaining values is `ReorderSpec` |
| Reorder.TakeStep | electron/main.js:1325-1328 | moving one more id: its game is appended to the front, and it is deleted from the key order and the table |
| Reorder.RemainingSnoc | electron/main.js:1328 | deleting one more key from the table |
| Reorder.LookupSnoc | electron/main.js:1331 | looking up one more key appends its value |
| Reorder.LookupAgree | electron/main.js:1331 | lookups in two tables that agree on the keys looked up are equal |
| Reorder.WithoutSnoc | electron/main.js:1328 | deleting one more key from the key order |
| Reorder.RemoveKeyAbsent | electron/main.js:1328 | deleting a key that is not there changes nothing |
| Reorder.LookupRemove | electron/main.js:1328 | deleting a key takes exactly its value out of the lookup |
| Reorder.AppendKeepsExtra | electron/main.js:1327 | appending the same game to two lists keeps the one game by which their contents differ |
| Reorder.TakenMoves | electron/main.js:1324-1331 | the loop loses and duplicates nothing: the front list and the remaining values together are the Map's values |
| Reorder.MoveOne | electron/main.js:1325-1328 | moving one key from the remaining keys to the front keeps the values of both together |
| Reorder.WithoutNothing | electron/main.js:1331 | with nothing deleted, the key order is unchanged |
| Reorder.MapOfUnique | electron/main.js:1322 | with unique ids the Map holds every game, in stored order |
| Reorder.MapSnocNew | electron/main.js:1322 | a game with a new id adds its id at the end of the key order and its game at the end of the values |
| Reorder.LastIdNew | electron/main.js:1322 | with unique ids, the last game's id is not a key of the Map of the games before it |
| Reorder.TakenOneKey | electron/main.js:1324-1330 | with a single stored id, the loop moves that id or nothing, however often it is listed |
| Reorder.MapOfSharedId | electron/main.js:1322 | the Map built from two games with one id holds the later game, under that id only |
| Reorder.ReorderSharedId | electron/main.js:1319-1334 | two stored games sharing an id are written back as the later one alone, whatever ids are listed: the list written is one game shorter |
| Reorder.ReorderPermutes | electron/main.js:1319-1334 | with unique ids, the list written is a permutation of the stored list |
| Reorder.IndexOfSnoc | electron/main.js:1324 | appending to the id list does not move the first place of an id already in it |
| Reorder.ReorderListedFirst | electron/main.js:1324-1330 | the list written starts with one stored game per listed stored id, in listed order, each with that id |
| Reorder.Unlisted | electron/main.js:1331 | the stored games whose id is not taken, in stored order |
| Reorder.ReorderRestInOrder | electron/main.js:1331 | with unique ids, the games not listed follow in their stored order |
| Reorder.RemainingInOrder | electron/main.js:1322-1331 | with unique ids, the Map's remaining values in key order are the stored games not taken, in stored order |
| Reorder.DistinctSnoc | electron/main.js:1322 | appending a new element keeps a list free of repeats |
| Reorder.DistinctUnsnoc | electron/main.js:1322 | dropping the last element keeps a list free of repeats, and that element is not among the rest |
| Reorder.WithoutDistinct | electron/main.js:1331 | filtering a key order keeps each key once |

## Left out

- Reading and writing the games file (`readGames`, `writeGames`): each handler takes the stored list and returns the list it would write.
- The clock: `Date.now()` is the parameter `now` and `new Date().toISOString()` is the parameter `nowIso`.
- The file system: `fs.existsSync` is a set of existing paths (`files`, `present`).
- Letter case: `toLowerCase` is a function parameter `lower`, because Unicode case mapping is not modelled.
- Opening a target: `shell.openExternal` and `shell.openPath` become the value `Opened`. Nothing is started. The code's launch helpers do not pass the arguments or the working directory on, and neither does the model. The platform and extension check therefore has no effect and is not modelled.
- The `try`/`catch` of `games:launch`: the only failures it catches come from the file system and the shell, which are not modelled.
- Record fields that the core does not use for decisions (`coverUrl`, `landscapeCoverUrl`, `color`, `icon`, `hours`, `isFav`) are not modelled. The modelled fields are strings, ids are integers and the arguments field is an array, a string or absent. `String(x || '')` on other JavaScript values is not modelled.
- Ids are mathematical integers. A mix of numeric and string ids, which strict equality would tell apart, is not modelled.
- Strings are sequences of characters; UTF-16 surrogate pairs are not distinguished from characters.
- `games:get`, `games:update`, the platform scanners whose results are de-duplicated, the Steam web API calls, the window, the tray and the preload bridge are not part of this model.
- Reorder.ReorderPermutes: stated only for catalogs whose ids are unique. With a repeated id the Map keeps only the last game with that id, so the list written drops the earlier ones; `ReorderSpec` models that behaviour as written, and `Reorder.ReorderSharedId` states it for two games that share an id.
- Reorder.ReorderRestInOrder: stated only for unique ids, for the same reason.
- Launch.WithDefaultsIdempotent: requires that the first pass set an id and that the Steam id field be empty or carry an id. A non-blank Steam id field without an id makes the first pass look for the id there and not in the path. The second pass then sees an empty field and finds the path's id, so the record changes.
- Catalog.LaunchMissingExecutable and Catalog.LaunchSteamGame: stated for a game whose earlier entries have other ids and whose working directory passes its check. They are special cases of the outcome conditions in `Catalog.LaunchGame`'s contract.
