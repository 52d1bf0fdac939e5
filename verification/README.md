# GTFO log tracker — a Dafny model

GTFO is a cooperative shooter whose levels hide "story logs" on in-game
terminals. The tracker shows which of these logs a player has already
read. It builds the read set in one of two ways:

- from the player's PlayFab user data, with a Steam session ticket;
- from the game's local session logs. There it takes the newest
  `GTFO.<stamp>_<anything>.txt` file, or else `Player.log`. Each line
  can hold a "Logs Read: … | IDs: [..]" summary or a terminal name such
  as `ABC-123` that names a log.

While the game runs, a file watcher rescans each session log the game
writes. It reports the latest terminal name and level selection to the
GUI. The GUI keeps the read set and a filtered table of log rows.

This project models that core as pure functions over immutable data and
proves what each step guarantees. One module follows each concern:

| module | models |
|---|---|
| `Base` | `Option`/`Result`, integer widths, generic sequence folds (`FilterMap`, `Filter`, `FlatMap`, first/last index searches, keep-the-latest replay) |
| `Text` | the Rust string operations used: `trim`, `split`, `parse::<u32>`, decimal formatting, ASCII lower-casing |
| `GameData` | `StoryLog`, `Location`, `get_id_from_name` |
| `SessionFileName` | the session-log name pattern and `parse_file_name` |
| `DashCode` | the in-game terminal-name pattern (leftmost-first, greedy) |
| `LevelLine` | the level-selection pattern and its capture group |
| `SummaryLine` | the "Logs Read" summary pattern and the ids in its list |
| `LocalLogs` | `parse_read_ids`, the choice of log file, `get_read_log_ids_from_log_dir` |
| `PlayFab` | `parse_ids`, `to_hex`, the login and user-data exchanges |
| `Startup` | `get_logs` and `get_read_log_ids_from_play_fab`, including the order of the outside calls |
| `Watcher` | `get_latest_data` and the `watch` loop as a state machine |
| `Gui` | messages, `update`, `comma_join`, the row mapping and the table filter |
| `Steam` | `parse_library_path` over the lines of `libraryfolders.vdf` |
| `Cli` | `get_options` |

The four regular expressions are written out as recognisers.
Each recogniser has an index-free definition of "a match here", and
lemmas tie the scanner to it. Outside services are function-valued
parameters: Steam, the PlayFab HTTP calls, the registry lookup, the
level-name resolver and the file system. Their outcomes are data.

Some behaviour of the code is easy to misread, and the model keeps it
as written:
- A summary line such as `Logs Read: 2 / 5 | IDs: [10, abc]` contributes
  no ids at all, not even `10`. The summary pattern at
  `src/lib.rs:125-126` requires every list element to be digits, so the
  whole rule fails to match and the `filter_map` at `src/lib.rs:134-137`
  never runs (`SummaryLine.MalformedListNoIds`).
- A session-log name whose stamp matches the pattern but is not a valid
  date or time (`GTFO.2023.02.30.00.00.00_x.txt`) is not skipped: the
  calendar conversions at `src/lib.rs:159-169` are unwrapped and would
  panic. Such names are therefore a precondition
  (`SessionFileName.WellFormedName`) wherever a name is parsed.
- `trim` and `\s` use Unicode's full White_Space set, not only ASCII
  blanks.
- The watcher assigns the lookup of every terminal name it meets
  (`src/iced_gui/game_log_watcher.rs:99-103`), so a later name that
  resolves to no log resets the reported id to `None` rather than keeping
  the last name that did resolve (`Watcher.ScanLine`, `Watcher.ScanId`).

## Model

| member | source | states |
|---|---|---|
| GameData.GetIdFromName | src/game_data.rs:22-30 | the id of the first catalog entry with a location named exactly `name`; `None` exactly when no location anywhere has that name |
| GameData.GetIdFromNameAppend | src/game_data.rs:22-30 | a name already found keeps its answer when entries are appended: the first match wins |
| GameData.FoundByOwnName | src/game_data.rs:22-30 | an entry is found under each of its location names unless an earlier entry has the same name |
| SessionFileName.FirstMatchFrom | src/lib.rs:24-25 | the leftmost position from which `GTFO.<stamp>_…txt` matches; `None` when the pattern matches nowhere |
| SessionFileName.ParseFileName | src/lib.rs:156-171 | a stamp is returned exactly for names the pattern matches; it is a valid date and time, and its fields are the digits at the match |
| SessionFileName.ParseSessionLogName | src/lib.rs:156-171 | round trip: a name built from a valid stamp formatted as `YYYY.MM.DD.hh.mm.ss` is a candidate and parses back to that stamp |
| SessionFileName.FormatStampFields | src/lib.rs:159-169 | re-formatting the parsed fields gives back the 19 stamp characters |
| SessionFileName.StampFieldsFormat | src/lib.rs:159-169 | the fields read from a formatted stamp are the stamp's own fields |
| SessionFileName.NotAfterTotal | src/lib.rs:90 | the time order used by `max_by` is total and antisymmetric |
| SessionFileName.NotAfterTransitive | src/lib.rs:90 | the time order is transitive |
| SessionFileName.PlayerLogIsNotCandidate | src/lib.rs:92-95 | `Player.log` never matches the session-log pattern |
| SessionFileName.IsCandidate | src/lib.rs:152-154 | `file_contains_log_ids`: the pattern matches somewhere in the name; `SessionFileName.FirstMatchFrom` finds the leftmost such place, `SessionFileName.ParseSessionLogName` shows every formatted stamp qualifies and `SessionFileName.PlayerLogIsNotCandidate` that `Player.log` does not |
| DashCode.Find | src/lib.rs:26-27 | the returned text is a dash code occurring in the line; `None` exactly when no position starts one |
| DashCode.FirstCodeFrom | src/lib.rs:26-27 | the leftmost code start at or after `from`, with the longest match there (the optional third part is taken when present) |
| DashCode.CodeAtIff | src/lib.rs:26-27 | the index-form match predicate agrees with the pattern applied to the slice |
| DashCode.LengthAtComplete | src/lib.rs:26-27 | the matcher finds a length at a position exactly when some code starts there |
| DashCode.LengthAtSound | src/lib.rs:26-27 | the length found is a real match |
| DashCode.NoLongerAt | src/lib.rs:26-27 | no match at the same position is longer than the one found |
| LevelLine.Capture | src/lib.rs:29-30 | `None` exactly when the pattern matches nowhere; otherwise the token is what the leftmost match captures with the greedy `.*` |
| LevelLine.FirstMatchStart | src/lib.rs:29-30 | the leftmost start of a match; `None` exactly when none exists |
| LevelLine.LastTokenAfter | src/lib.rs:29-30 | the greedy `.*` stops at the last `Local_d+,d,d` before the next line feed |
| LevelLine.LeftmostCaptured | src/lib.rs:29-30 | the token taken from the leftmost match is the capture group's value |
| LevelLine.TokenAtIff | src/lib.rs:29-30 | the index-form token predicate agrees with the pattern applied to the slice |
| LevelLine.HasMatchAtIff | src/lib.rs:29-30 | the scanner's match test agrees with the definition of a match at a position |
| SummaryLine.Capture | src/lib.rs:125-132 | when it returns a list, the line really contains a summary with that list |
| SummaryLine.MatchLine | src/lib.rs:125-132 | the parts found reassemble into a summary at the reported position |
| SummaryLine.CaptureComplete | src/lib.rs:125-132 | every summary occurring in a line is captured |
| SummaryLine.MalformedListNoIds | src/lib.rs:125-139 | a list with a non-numeric element gives no capture and no ids |
| SummaryLine.SummaryIdsMember | src/lib.rs:134-138 | an id is taken from a summary exactly when some comma-separated element trims to it and fits in `u32` |
| SummaryLine.SummaryIdsInOrder | src/lib.rs:134-138 | when every element fits, the ids are the elements' values in order |
| SummaryLine.TokenId | src/lib.rs:137 | an element parses exactly when its value fits in 32 bits |
| SummaryLine.SummaryIds | src/lib.rs:130-139 | the ids of a line's summary; `SummaryLine.SummaryIdsMember` states which ids appear, `SummaryLine.SummaryIdsInOrder` their order, `SummaryLine.MalformedListNoIds` that a bad list gives none |
| LocalLogs.InGameId | src/lib.rs:141-146 | a line gives an in-game id exactly when it has a dash code that names a catalog entry; the id is that entry's |
| LocalLogs.LineIds | src/lib.rs:129-146 | a line contributes its summary ids and its in-game id, and nothing else; the count is the sum of the two |
| LocalLogs.ParseReadIdsMember | src/lib.rs:124-150 | an id is read exactly when some line contributes it |
| LocalLogs.ParseReadIds | src/lib.rs:124-150 | `parse_read_ids`; `LocalLogs.ParseReadIdsMember` states that an id is read exactly when some line contributes it, and `LocalLogs.ParseReadIdsAppend` that the ids come line by line in order |
| LocalLogs.ParseReadIdsAppend | src/lib.rs:124-150 | the ids of concatenated logs are the concatenation of their ids |
| LocalLogs.NeitherRuleNothing | src/lib.rs:129-146 | a line matching neither rule contributes nothing |
| LocalLogs.ReadIdSet | src/lib.rs:105-109 | the set holds exactly the ids contributed by some line |
| LocalLogs.NewestIn | src/lib.rs:85-90 | the index of a newest stamp, later stamps all strictly older (the last of equal maxima); `None` exactly when no name parses |
| LocalLogs.SelectLogFile | src/lib.rs:83-101 | the newest session log; else `Player.log` when it exists and no name matches; an error exactly when neither exists |
| LocalLogs.ReadLogIdsFromLogDir | src/lib.rs:81-110 | unreadable directory, missing log file and unopenable file are the three errors; otherwise the read set of the chosen file |
| PlayFab.ParseIds | src/play_fab.rs:136-147 | at most one id per comma-separated segment |
| PlayFab.Unbracket | src/play_fab.rs:137-141 | brackets are removed only when both are there |
| PlayFab.ParseIdsMember | src/play_fab.rs:143-146 | an id is produced exactly when some segment trims to a valid `u32` |
| PlayFab.ParseIdsInOrder | src/play_fab.rs:143-146 | when every segment is valid, the ids are the segments' values in order |
| PlayFab.ParseIdsEmpty | src/play_fab.rs:161-173 | `""` and `"[]"` give no ids |
| PlayFab.ParseIdsSingle | src/play_fab.rs:175-189 | a number, bracketed or not, gives exactly that id |
| PlayFab.BracketsNeedBoth | src/play_fab.rs:137-141 | a number with only one of the brackets gives no ids |
| PlayFab.ParseIdsTwo | src/play_fab.rs:191-198 | two numbers around a comma, each padded with any whitespace, give both ids in order |
| PlayFab.ParseIdsSkipsInvalid | src/play_fab.rs:200-206 | an invalid segment is dropped and the valid one kept |
| PlayFab.WordIsNotId | src/play_fab.rs:200-206 | a word is not an id |
| PlayFab.ByteHex | src/play_fab.rs:149-154 | two upper-case hex digits whose value is the byte |
| PlayFab.ToHex | src/play_fab.rs:149-154 | two upper-case hex digits per byte |
| PlayFab.FromHexToHex | src/play_fab.rs:149-154 | round trip: decoding the hex text gives back the bytes |
| PlayFab.ToHexInjective | src/play_fab.rs:149-154 | distinct tickets give distinct hex texts |
| PlayFab.ToHexAt | src/play_fab.rs:149-154 | the two characters at position 2i encode byte i |
| PlayFab.FromApi | src/play_fab.rs:7-21 | a successful reply yields its data; an error reply yields its details |
| PlayFab.Exchange | src/play_fab.rs:89-103 | success exactly when transport and reply both succeed, with the reply's data |
| PlayFab.NewLoginRequest | src/play_fab.rs:40-55 | the request carries title and ticket, never creates an account, and is not service-specific |
| PlayFab.LoginRequestFor | src/play_fab.rs:85-88 | the request goes to title `8f9`, and its ticket text decodes back to the Steam ticket bytes |
| PlayFab.Login | src/play_fab.rs:87-104 | success exactly when the exchange succeeds, yielding the session ticket; an API error is passed through |
| PlayFab.GetUserData | src/play_fab.rs:106-134 | success exactly when the exchange succeeds; each id comes from a segment of the stored `readlogs` text |
| Startup.UserData | src/lib.rs:63-66 | user data is fetched only after a successful login; a login error is the result |
| Startup.RemoteEffects | src/lib.rs:58-71 | ticket first, then login, then user data exactly when login succeeded; the ticket is cancelled exactly once, last; no local read |
| Startup.ReadLogIdsFromPlayFab | src/lib.rs:55-79 | a Steam start-up failure makes no calls; otherwise the calls follow `RemoteEffects`, and the ids are the user data's as a set |
| Startup.GetLogs | src/lib.rs:32-53 | a catalog error ends early with no calls; PlayFab is tried only when asked for, and its success makes exactly the remote calls of `RemoteEffects` (ticket cancelled once, last) with no local read; a PlayFab failure falls back to the local directory; local errors are what remain; the directory must be well-formed only on the paths that read it |
| Startup.FromLocal | src/lib.rs:46-49 | the local fallback reads the directory once and returns its read set or its error |
| Watcher.ScanLine | src/iced_gui/game_log_watcher.rs:99-107 | a terminal-name match replaces the id with its lookup, `None` included; a level match replaces the level; otherwise nothing changes |
| Watcher.ScanId | src/iced_gui/game_log_watcher.rs:99-103 | the scan reports the lookup of the terminal name on the LAST line that has one |
| Watcher.ScanLevel | src/iced_gui/game_log_watcher.rs:104-106 | the scan reports the resolved token of the LAST line that selects a level |
| Watcher.ScanReplays | src/iced_gui/game_log_watcher.rs:99-107 | the two fields are independent keep-the-latest folds over the lines |
| Watcher.Scan | src/iced_gui/game_log_watcher.rs:99-107 | the scanning loop; `Watcher.ScanId` and `Watcher.ScanLevel` state that it reports the last line with a terminal name and the last level line, and `Watcher.QuietLines` that other lines change nothing |
| Base.ReplayIsLastHit | src/iced_gui/game_log_watcher.rs:99-107 | a keep-the-latest fold equals the value at the last line that has one, or the initial value |
| Watcher.QuietLines | src/iced_gui/game_log_watcher.rs:99-107 | lines matching neither pattern change nothing |
| Watcher.GetLatestData | src/iced_gui/game_log_watcher.rs:87-112 | only an openable file with a session-log name is scanned; anything else reports nothing |
| Watcher.NotCandidateNotRead | src/iced_gui/game_log_watcher.rs:90-95 | a file whose name is not a session log's is never read |
| Watcher.EmptyFileNothing | src/iced_gui/game_log_watcher.rs:87-112 | an empty session log reports nothing |
| Watcher.EventsOf | src/iced_gui/game_log_watcher.rs:66-71 | at most one `LogRead`, then at most one `LevelSelected`, each present exactly when found |
| Watcher.EventsFor | src/iced_gui/game_log_watcher.rs:60-73 | only creations and modifications are handled, through their first path |
| Watcher.OnlyFirstPath | src/iced_gui/game_log_watcher.rs:63-64 | further paths of a notification are ignored |
| Watcher.Step | src/iced_gui/game_log_watcher.rs:46-82 | set-up success leads to `Watching`, failure to `Failed` with its message; `Watching` and `Failed` persist; events come only from handled notifications while watching |
| Watcher.RunStable | src/iced_gui/game_log_watcher.rs:46-82 | over any run, `Watching` stays watching and `Failed` stays failed and silent |
| Watcher.Run | src/iced_gui/game_log_watcher.rs:46-82 | turns of the watch loop with their events in order; `Watcher.RunStable` states that `Watching` and `Failed` persist and only `Watching` sends events |
| Gui.FromGameEvent | src/iced_gui/mod.rs:63-70 | `LogRead` becomes `NewLogRead` with the same id; `LevelSelected` becomes `LevelChanged` |
| Gui.NewMainView | src/iced_gui/mod.rs:389-410 | a fresh view keeps data and path, hides nothing, filters automatically, with an empty filter |
| Gui.UpdateView | src/iced_gui/mod.rs:107-156 | each message changes only its own field; a level change sets the filter only under auto-filter |
| Gui.Update | src/iced_gui/mod.rs:101-166 | `DataLoaded` starts a fresh view; `Error` replaces the screen; other messages change only a loaded view |
| Gui.ReadSetGrows | src/iced_gui/mod.rs:107-113 | over any run with no `DataLoaded` or `Error` message, the read set only grows and holds every id reported read |
| Gui.NotLoadedIgnores | src/iced_gui/mod.rs:101-166 | before data arrives, view messages change nothing |
| Gui.CommaJoinIsJoin | src/iced_gui/mod.rs:345-356 | the zone text is the decimals joined by `", "` |
| Gui.CommaJoinParses | src/iced_gui/mod.rs:345-356 | round trip: the `parse_ids` list parser reads the joined zone text back as the zones |
| Gui.CommaJoin | src/iced_gui/mod.rs:345-356 | `comma_join`; `Gui.CommaJoinIsJoin` states it is the decimals joined by `", "`, and `Gui.CommaJoinParses` that `parse_ids` reads the text back as the numbers |
| Gui.ZoneLabelOutside | src/iced_gui/mod.rs:333-337 | the zone column says `Outside` exactly when the zones are just `[0]` |
| Gui.ZoneLabel | src/iced_gui/mod.rs:337-341 | the zone column; `Gui.ZoneLabelOutside` states it reads `Outside` exactly for `[0]`, and `Gui.CommaJoinIsJoin` what it reads otherwise |
| Gui.LevelLabel | src/iced_gui/mod.rs:333 | the level column `R<rundown><level>`; `Gui.MapLogToRows` states that every row carries it |
| Gui.MapLogToRows | src/iced_gui/mod.rs:328-343 | one row per location, in order, each with that location's labels and the log's id and read flag |
| Gui.FilteredRowsMember | src/iced_gui/mod.rs:259-280 | a row is shown exactly when its log is shown and the row matches the filter; with hide-read on, no read row is shown |
| Gui.EmptyFilterKeepsAll | src/iced_gui/mod.rs:259-280 | an empty filter keeps every row |
| Gui.FilteredRows | src/iced_gui/mod.rs:259-280 | the rows of `log_table`; `Gui.FilteredRowsMember` states exactly which rows are shown, and `Gui.EmptyFilterKeepsAll` that an empty filter keeps every row of the shown logs |
| Steam.ParseLibraryPath | src/steam.rs:26-43 | the path of the last `"path"` line before the first app line, `None` when no app line comes |
| Steam.ScanLines | src/steam.rs:30-42 | the loop computes the same reference answer (`LibraryPath`), for any line classifier, whenever no path line it reaches would make the byte slice panic |
| Steam.LaterLinesIrrelevant | src/steam.rs:37-38 | lines after the first app line do not change the answer |
| Steam.NoPathCases | src/steam.rs:37-42 | no app line, or no path line before it, gives `None` |
| Steam.BlockOfApp | src/steam.rs:50-88 | a library block whose path comes before the app, after blocks without the app, yields that block's path |
| Steam.FindsGamePath | src/steam.rs:50-88 | with the scan's own classifier: an indented `"path"` entry, then lines of neither kind, then an indented line starting with `"493520` yield the entry's path, after any blocks without the app |
| Steam.PathEntry | src/steam.rs:31-36 | an indented `"path" "<p>"` line is a path line and yields `<p>` |
| Steam.AppLinePrefix | src/steam.rs:27-38 | an indented line starting with `"493520…` is an app line |
| Steam.PathOfBlock | src/steam.rs:30-42 | in the kind sequence, the first app is found and the path before it is the last path line |
| Steam.KindOf | src/steam.rs:31-37 | how the loop classifies a line after `trim_start`; `Steam.PathEntry` and `Steam.AppLinePrefix` state which lines are path lines and app lines |
| Steam.PathOf | src/steam.rs:34-36 | the path of a path line: the text after the third quote without its last character; `Steam.PathEntry` states that a well-quoted line yields its path |
| Cli.GetOptions | src/main.rs:30-46 | the path is the argument after the first `--data-path`, else the lookup's; the lookup's failure is the only error and carries the context; `--playfab` anywhere turns PlayFab on |
| Cli.Position | src/main.rs:34 | the index of the first argument equal to the flag; `None` exactly when it is absent |
| Cli.DataPathAfterFirst | src/main.rs:32-36 | the argument after the first `--data-path` is the path, whatever follows |
| Cli.DataPathLast | src/main.rs:35 | a trailing `--data-path` names no path |
| Cli.LookupUnused | src/main.rs:37-38 | when the command line names a path, the lookup's result makes no difference |
| Cli.FlagTakenAsPath | src/main.rs:32-44 | `--data-path --playfab` takes `--playfab` as the path and also turns PlayFab on |
| Cli.DataPathArg | src/main.rs:34-35 | the argument after the first `--data-path`; `Cli.DataPathAfterFirst` and `Cli.DataPathLast` state when it is found, `Cli.FlagTakenAsPath` that it is taken verbatim |
| Text.Split | src/play_fab.rs:144 | the pieces contain no separator, and joining them with it gives the input back |
| Text.SplitJoin | src/play_fab.rs:144 | round trip: splitting a join of separator-free pieces gives the pieces |
| Text.SplitCount | src/play_fab.rs:144 | there is one more piece than separators |
| Text.TrimStart | src/steam.rs:31 | the result is a suffix, the removed prefix is whitespace, and the result does not start with whitespace |
| Text.TrimEnd | src/play_fab.rs:145 | the result is a prefix, the removed suffix is whitespace, and the result does not end with whitespace |
| Text.Trim | src/play_fab.rs:145 | `str::trim`: `Text.TrimPadded` states that any whitespace padding around a text with no whitespace at its ends is removed |
| Text.TrimPadded | src/play_fab.rs:145 | whitespace padding on both sides is removed and the core is returned unchanged |
| Text.ParseDecimal | src/play_fab.rs:145 | round trip: parsing a `u32`'s decimal text gives the number |
| Text.ParseDigits | src/play_fab.rs:145 | a digit string parses exactly when its value fits in 32 bits |
| Text.ParseU32 | src/play_fab.rs:145 | `parse::<u32>` (also at src/lib.rs:137): a result needs a non-empty text of ASCII digits after an optional `+`; `Text.ParseDigits` and `Text.ParseDecimal` state the value and the overflow bound |
| Text.Decimal | src/iced_gui/mod.rs:345-356 | at least one digit, no leading zero, and the digits' value is the number |
| Text.ToAsciiLowercase | src/iced_gui/mod.rs:259-280 | same length, each character lower-cased if ASCII |

## Left out

- Rendering with iced: layout, widgets, fonts, icons and the scrolling and column-resizing messages. These change nothing that is modelled.
- The async runtime and channels: the watcher's notifications arrive as a sequence of values, and sending an event is appending it to a list.
- The watcher's `Failed` state re-prints its error each turn; the model keeps the state and sends nothing.
- Steam (`steamworks`), HTTP (`reqwest`) and JSON decoding (`serde`). Their outcomes are parameters, and their error messages are plain strings.
- The `Display` text of PlayFab's `ErrorDetails`: errors carry the details as data.
- File-system and environment access (`read_dir`, `File::open`, `exists`, `HOME`). A directory is a listing, a flag for `Player.log` and a map from openable files to their lines. Reading stops at the first undecodable line (`map_while`); the lines given are the ones that were read.
- `find_proton_app_data_path`, which only joins fixed path parts around `parse_library_path`.
- `init_logger`, `log_runtime_info` and all logging.
- `get_level_from_local` and `find_user_data_path`: parameters (`resolve`, `userDataPath`). Their bodies are not part of this model.
- `load_logs`, the embedded JSON catalog: the catalog is a parameter. The `read` field of `StoryLog` is not kept, because the modelled code never consults it.
- `src/gui.rs` and `build.rs` are not part of this model.
- Regular expressions in general: the four patterns are hand-written recognisers, and `\d` is an ASCII digit (Unicode decimal digits are left out).
- Paths are strings. The watcher's path carries its file name as a separate optional value.
- Steam.ParseLibraryPath: requires every path line the scan reaches to leave a remainder that is non-empty and ends in an ASCII character (`PathsReadable`), because the byte slice `&s[..s.len() - 1]` panics on an empty remainder and on one ending in a multi-byte character (a path line missing its closing quote, such as `"path" "/a/ü`); the model promises nothing for such input.
- Steam.ScanLines: the same `PathsReadable` precondition as `Steam.ParseLibraryPath`, for the same byte-slice panic.
- SessionFileName.ParseFileName: requires a matching name's stamp to be a valid date and time (`WellFormedName`), because the code unwraps the calendar conversion and would panic.
- LocalLogs.Stamps: requires every name in the listing to be well formed (`AllWellFormed`, built on `SessionFileName.WellFormedName`), because the stamp conversion unwraps and would panic on a matching name with an invalid date or time.
- LocalLogs.SelectLogFile: the same `AllWellFormed` precondition on the listing, for the same panic.
- LocalLogs.ReadLogIdsFromLogDir: the same `AllWellFormed` precondition on a listing that was read, for the same panic.
- Startup.GetLogs: requires the same well-formed listing (`WellFormedDir`) on the paths that read the log directory, for the same panic.
- PlayFab.GetUserData: states that every id comes from some segment, not the full order; `PlayFab.ParseIdsMember` and `PlayFab.ParseIdsInOrder` state the rest of `parse_ids`.
- Startup.ReadLogIdsFromPlayFab: the result is stated as a set (`HashSet::from_iter`), so duplicates and order in the user data are not kept.
