# steamos_diy session switching and launch resolution, in Dafny

This project models the decision logic of steamos_diy, a set of Python
scripts that turn a handheld gaming appliance into a two-session machine.
The two sessions are a Steam game-mode session (gamescope hosting Steam) and
a Plasma desktop.

- **Shared key/value configuration.** Every component reads the file
  `/etc/default/steamos_diy.conf`. There are two parser variants:
  - `load_kv` of `sdy.py` trims each line first and reads bare keys as flags;
  - the `=`-line reader of `session_select.py` and `session_launch.py` tests
    `#` on the raw line and skips lines without `=`.

  Module `KvConfig` models both. Python's `strip` family is modelled in
  `PyText`.
- **Session state.** One small file holds `steam` or `desktop`. Every
  writer writes `<path>.tmp` and renames it over the file. Module
  `StateFile` models files as a map and side effects as a list of
  `Effect`s.
- **Switch trigger** (`session_select.py`). It normalises the requested
  target and persists it atomically. Only after that does it end the running
  session: Steam with `-shutdown`, or the desktop with `qdbus6`, falling back
  to `qdbus`. Module `SessionSelect`.
- **Session supervisor** (`session_launch.py`). It exports the
  configuration into the environment, then loops: read the state file
  (default `steam`), run that session's child, write the other session back.
  Module `SessionLaunch` models one pass as a pure `Iterate` and the loop as
  `n` passes.
- **Launch resolver** (`sdy.py`). It climbs at most three directories from
  a game binary looking for a `games.d` override. It layers the process
  environment, the user's manifesto and the override, and builds
  `wrapper + args + extra args`. It logs one line and means to replace
  itself with the game through `execve`. As written it never does (see
  Findings). Modules `Discovery` and `LaunchResolver`.
- **Control centre helpers** (`control_center.py`):
  - the log viewer's repetition filter (`LogFilter`);
  - the game list, its labels, and opening and saving a game profile
    (`GameLabels`, with the label sort in `Sorting`);
  - where saving a profile writes (`ProfilePath`): pathlib's join and the
    `..` the file system resolves, which it does only out of an existing
    directory;
  - the template toggle (`Templates`).
- **How the trigger and the supervisor meet** through the state file.
  Module `Coordination`.

Outside-world inputs are parameters:
- the configuration file's text, with `None` for a missing file;
- the set of existing override files;
- `launches`, which says whether an executable can be started;
- the `shlex.split` tokenizer;
- the `PATH` lookup;
- the error `execve` reports;
- the pre-parsed regular-expression groups of a journal line;
- whether editor text is valid YAML;
- the file names listed in `games.d` (`GameLabels.Detect`);
- whether a `<name>.example.<ext>` file exists (`Templates.Toggle`);
- which paths are existing directories, `isDir`, and in which directories
  the user may create a file, `creatable` (`ProfilePath.SaveAsWritten`).

## Model

| member | source | states |
|---|---|---|
| KvConfig.Collect | usr/local/lib/steamos_diy/sdy.py:30-38 | a key is in the dictionary exactly when some line defines it |
| KvConfig.CollectLastWins | usr/local/lib/steamos_diy/sdy.py:34-35 | every key holds the value of the last line that defines it |
| KvConfig.CollectAppend | usr/local/lib/steamos_diy/session_launch.py:28-33 | reading lines in two parts is the first dictionary overridden by the second |
| KvConfig.InertEntry | usr/local/lib/steamos_diy/sdy.py:32 | a line that contributes nothing can be dropped from anywhere without changing the dictionary |
| KvConfig.Unquote | usr/local/lib/steamos_diy/sdy.py:35 | the value never grows, and never starts or ends with a single quote afterwards |
| KvConfig.UnquoteQuoted | usr/local/lib/steamos_diy/sdy.py:35 | a value with nothing to strip is kept, and one layer of `"` or `'` quotes around it is removed |
| KvConfig.UnquoteStripsAllDoubleQuotes | usr/local/lib/steamos_diy/sdy.py:35 | `strip('"')` removes every surrounding double quote, not only one pair |
| KvConfig.UnquoteKeepsDoubleInsideSingle | usr/local/lib/steamos_diy/sdy.py:35 | double quotes inside single quotes survive, because the `"` strip runs first |
| KvConfig.SplitAtEquals | usr/local/lib/steamos_diy/sdy.py:34 | `split("=", 1)` cuts at the first `=`: the key before it, and the rest, `=` signs included, after it |
| KvConfig.FlagLineRoundTrip | usr/local/lib/steamos_diy/sdy.py:31-35 | `load_kv` reads back the pair a clean `key=value` line writes |
| KvConfig.FlagLineBare | usr/local/lib/steamos_diy/sdy.py:36-38 | a non-comment line without `=` maps its text to the flag `True` |
| KvConfig.CommentLineInert | usr/local/lib/steamos_diy/sdy.py:31-32 | a blank or `#` line, after trimming, leaves the dictionary unchanged wherever it appears |
| KvConfig.LaterLineWins | usr/local/lib/steamos_diy/sdy.py:33-35 | a later line for the same key overwrites an earlier one |
| KvConfig.IndentedCommentSkippedByLoadKv | usr/local/lib/steamos_diy/sdy.py:31-32 | `load_kv` trims before testing `#`, so an indented comment is skipped |
| KvConfig.EqLineRoundTrip | usr/local/lib/steamos_diy/session_select.py:35-37 | the session scripts read back `key=value\n` as the pair written |
| KvConfig.UnquoteNewline | usr/local/lib/steamos_diy/session_launch.py:31 | the line terminator is stripped with the whitespace before the quotes |
| KvConfig.IndentedCommentReadBySessionScripts | usr/local/lib/steamos_diy/session_select.py:35-37 | the session scripts test `#` on the raw line, so an indented comment holding `=` is read as a pair |
| KvConfig.FlagLineSkippedBySessionScripts | usr/local/lib/steamos_diy/session_select.py:35 | a bare flag line is a flag to `load_kv` but contributes nothing to the session scripts |
| Discovery.Ancestor | usr/local/lib/steamos_diy/sdy.py:87 | `k` steps of `.parent` drop the last `k` components, and the root stays the root |
| Discovery.StemOfConf | usr/local/lib/steamos_diy/sdy.py:82 | the stem of `<x>.conf` is `x`, so `game_id` is the name the override was looked up by |
| Discovery.Examined | usr/local/lib/steamos_diy/sdy.py:66-71 | at most three directories, each the parent of the one before, none of them a stop name, and the list ends only at the level limit or at a stop name |
| Discovery.Candidates | usr/local/lib/steamos_diy/sdy.py:73-77 | at each level `<exe>.conf` is tried before `<directory name>.conf` |
| Discovery.FirstIn | usr/local/lib/steamos_diy/sdy.py:79-83 | the result is the first candidate that exists, and no earlier one exists; `None` when none does |
| Discovery.FirstInAppend | usr/local/lib/steamos_diy/sdy.py:79-85 | searching a list in two parts finds the first part's hit, or else the second part's |
| Discovery.Discover | usr/local/lib/steamos_diy/sdy.py:62-87 | the script's loop, with its early breaks, finds exactly what the first-existing-candidate definition finds |
| Discovery.ExeConfWins | usr/local/lib/steamos_diy/sdy.py:74-83 | an existing `<exe>.conf` wins when the binary's directory is not a stop name, and the game id is the exe stem |
| Discovery.StopDirectoryBlocks | usr/local/lib/steamos_diy/sdy.py:70-71 | a binary directly inside a stop directory gets no override, and the game id is the exe stem |
| Discovery.FoundIsCandidate | usr/local/lib/steamos_diy/sdy.py:69-87 | whatever is found exists and is `<exe>.conf` or the `.conf` of one of the three examined directories |
| LaunchResolver.FinalEnvLookup | usr/local/lib/steamos_diy/sdy.py:90-112 | each variable comes from the highest layer that sets it to text: the override except its wrapper keys, then the manifesto, then the process environment; flags set nothing |
| LaunchResolver.Gather | usr/local/lib/steamos_diy/sdy.py:49-103 | the exe is the resolved path's stem; the override is the discovery result from the binary's directory, and its dictionary is loaded only when one was found |
| LaunchResolver.Assemble | usr/local/lib/steamos_diy/sdy.py:99-122 | the plan exists exactly when both settings tokenize; then it carries the override, the game id and the layered environment |
| LaunchResolver.WrapperPrecedence | usr/local/lib/steamos_diy/sdy.py:99-119 | the command starts with the override's `GAME_WRAPPER` tokens when the override has the key (an empty one cancels the manifesto's), else the manifesto's, and with the game's own arguments when neither sets it; the command holds nothing else between the wrapper and extra-argument tokens |
| LaunchResolver.ExtraArgsPrecedence | usr/local/lib/steamos_diy/sdy.py:100-122 | the command ends with the game's arguments and then the winning layer's `GAME_EXTRA_ARGS` tokens, by the same precedence, and with the game's own arguments when neither sets it; its length is the two layers' token counts plus the game's arguments |
| LaunchResolver.CommandKeepsArgs | usr/local/lib/steamos_diy/sdy.py:115-122 | the game's arguments appear whole and in order in the command, and the command is exactly them when wrapper and extra args are empty |
| LaunchResolver.CommandStartsWithWrapper | usr/local/lib/steamos_diy/sdy.py:116-119 | the wrapper's tokens come first and the command is longer than them, so `full_cmd[0]` exists |
| LaunchResolver.Resolve | usr/local/lib/steamos_diy/sdy.py:54-122 | no manifesto path means failure; otherwise the plan is gathered and assembled from it, with a non-empty command |
| LaunchResolver.ConfNameGlobalIff | usr/local/lib/steamos_diy/sdy.py:125 | the log line says `GLOBAL` exactly when no override was found |
| LaunchResolver.Execute | usr/local/lib/steamos_diy/sdy.py:128-133 | the process is replaced exactly when the lookup and `execve` both succeed; otherwise the log line is followed by one critical error |
| LaunchResolver.Launch | usr/local/lib/steamos_diy/sdy.py:45-133 | usage exactly when there are no arguments; a crash exactly when resolution fails; a replacement runs the looked-up program with the plan's argv and environment |
| LaunchResolver.LaunchAsWritten | usr/local/lib/steamos_diy/sdy.py:130 | as written, the script never replaces itself with the game |
| LaunchResolver.AsWrittenNeverLaunches | usr/local/lib/steamos_diy/sdy.py:129-133 | wherever the corrected lookup launches the game, the code as written logs `CRITICAL ERROR` and exits with status 1 |
| StateFile.ApplyEffect | usr/local/lib/steamos_diy/session_select.py:59-61 | a write sets one file; a rename moves the content and removes the source, touching nothing else; logs and spawns leave files alone |
| StateFile.ApplyHarmless | usr/local/lib/steamos_diy/session_select.py:63-77 | effects that neither write nor rename change no file |
| StateFile.AtomicWrite | usr/local/lib/steamos_diy/session_select.py:58-61 | two steps: write a temporary path other than the target, then rename it onto the target |
| StateFile.AtomicWriteResult | usr/local/lib/steamos_diy/session_launch.py:62-67 | afterwards the path holds exactly the content, the temporary file is gone, and no other file changed |
| StateFile.AtomicWriteNeverTorn | usr/local/lib/steamos_diy/session_select.py:53-61 | stopped after any step, the path holds its old content, or the new one, or is still missing |
| SessionSelect.StatePathFallback | usr/local/lib/steamos_diy/session_select.py:38-57 | without a configuration file, or without the key, the intent goes to `/var/lib/steamos_diy/next_session` |
| SessionSelect.Normalize | usr/local/lib/steamos_diy/session_select.py:43-45 | the target is lower-cased, not trimmed, and `plasma` becomes `desktop` |
| SessionSelect.FirstLaunching | usr/local/lib/steamos_diy/session_select.py:70-77 | only the first tool that starts runs; nothing runs when none starts |
| SessionSelect.Shutdown | usr/local/lib/steamos_diy/session_select.py:63-77 | `desktop` runs `[conf.get('bin_steam', 'steam'), "-shutdown"]` and crashes if that binary is missing; `steam` tries the logout tools and never crashes; neither touches a file |
| SessionSelect.Select | usr/local/lib/steamos_diy/session_select.py:25-77 | no argument does nothing; a bad target logs once and returns; a good one logs, writes atomically, and only then shuts down |
| SessionSelect.SelectPersistsTarget | usr/local/lib/steamos_diy/session_select.py:53-67 | whatever the shutdown step does, crash included, the state file ends up holding the normalised target |
| SessionSelect.SelectRejectedIsInert | usr/local/lib/steamos_diy/session_select.py:27-49 | with no argument or a rejected target, no file changes, nothing starts, and nothing crashes |
| SessionSelect.LogoutToolChoice | usr/local/lib/steamos_diy/session_select.py:69-77 | `qdbus6` when it exists, `qdbus` only when `qdbus6` does not, and nothing when neither exists |
| SessionLaunch.ExportFailsOnEmptyKey | usr/local/lib/steamos_diy/session_launch.py:35 | exporting fails exactly when some line assigns the empty key |
| SessionLaunch.ExportOverlays | usr/local/lib/steamos_diy/session_launch.py:28-35 | a successful export is the starting environment overlaid with the whole configuration dictionary |
| SessionLaunch.Start | usr/local/lib/steamos_diy/session_launch.py:25-35 | a missing file ends the script; otherwise the configuration is the `=`-line dictionary and the environment is overlaid with it |
| SessionLaunch.ReadTargetPadded | usr/local/lib/steamos_diy/session_launch.py:39-45 | a file holding a session's word with whitespace around it, a trailing newline included, is read as that session |
| SessionLaunch.TokenRoundTrip | usr/local/lib/steamos_diy/session_launch.py:41-45 | the word written for a session is read back as that session |
| SessionLaunch.Iterate | usr/local/lib/steamos_diy/session_launch.py:39-67 | a pass logs its start, runs the session read, logs its end, and writes the other session atomically; it crashes when the child cannot start or `next_session` is missing |
| SessionLaunch.IterateSpawns | usr/local/lib/steamos_diy/session_launch.py:45-58 | the exact word `steam` spawns `[bin_gs, "-e", "-f", "--", bin_steam, "-gamepadui", "-steamos3"]`; anything else, an empty file or unknown word included, spawns `[bin_plasma]` |
| SessionLaunch.IterateWritesOther | usr/local/lib/steamos_diy/session_launch.py:62-67 | a completed pass leaves the other session's word in the file and changes no other file |
| SessionLaunch.HealthyPass | usr/local/lib/steamos_diy/session_launch.py:39-67 | with all keys present and the binaries startable, a pass completes and the next pass runs the other session |
| SessionLaunch.LoopStep | usr/local/lib/steamos_diy/session_launch.py:38-69 | a completed pass is followed by the remaining passes, run on the files it left |
| SessionLaunch.RunAlternates | usr/local/lib/steamos_diy/session_launch.py:38-69 | a pass that never fails and always flips the file runs `n` alternating sessions |
| SessionLaunch.LoopAlternates | usr/local/lib/steamos_diy/session_launch.py:38-69 | a healthy loop never stops, starts with the session the file names (Steam when none), and alternates |
| SessionLaunch.TwoPassesReturn | usr/local/lib/steamos_diy/session_launch.py:38-67 | two passes run both sessions once and leave the file naming the first again |
| Coordination.SharedStatePath | usr/local/lib/steamos_diy/session_launch.py:40 | the supervisor reads the same path the trigger writes, whenever the configuration names it |
| Coordination.SwitchIsHonoured | usr/local/lib/steamos_diy/session_select.py:53-61 | a supervisor pass that starts after a switch has finished runs the session asked for, whatever the shutdown step did |
| Coordination.SwitchDuringPass | usr/local/lib/steamos_diy/session_launch.py:52-67 | a switch that lands while a session runs is overwritten when that child exits: the next session is always the other one, so the request holds only when it asks for the session that was not running |
| Coordination.SwitchPrefix | usr/local/lib/steamos_diy/session_select.py:51-61 | part-way through a switch, the state file is as it was or holds the new target |
| Coordination.ConcurrentReadIsOldOrNew | usr/local/lib/steamos_diy/session_launch.py:39-45 | a read during a switch gives the old target or the requested one, never anything torn |
| LogFilter.StampRecognised | usr/local/lib/steamos_diy/control_center.py:230 | any `Mon DD HH:MM:SS` stamp at the start is matched in full, whatever follows it |
| LogFilter.StampRemoved | usr/local/lib/steamos_diy/control_center.py:230 | a message starting with a stamp loses exactly the stamp |
| LogFilter.StampsShareCore | usr/local/lib/steamos_diy/control_center.py:229-231 | messages that differ only in their leading stamps share one counter |
| LogFilter.PidSplit | usr/local/lib/steamos_diy/control_center.py:231 | a `[digits]` is emptied to `[]` wherever it sits, and the text around it is rewritten as if alone |
| LogFilter.StampLenBeforeBracket | usr/local/lib/steamos_diy/control_center.py:230 | text that follows a `[` never changes whether, or how far, the leading stamp matches |
| LogFilter.CoreAroundPid | usr/local/lib/steamos_diy/control_center.py:229-231 | the core of a message holding `[digits]` is the stamp-free text before it, `[]`, and the text after it, each rewritten on its own, then stripped |
| LogFilter.PidsShareCore | usr/local/lib/steamos_diy/control_center.py:229-231 | messages that differ only in the number inside one pair of brackets share one counter, with or without a stamp |
| LogFilter.CheckKeepsBound | usr/local/lib/steamos_diy/control_center.py:233-237 | every stored count stays between 1 and the limit |
| LogFilter.ResetThenPasses | usr/local/lib/steamos_diy/control_center.py:239-241 | after a reset, with a limit of at least one, the next call on any message passes and counts it once |
| LogFilter.CheckIsolated | usr/local/lib/steamos_diy/control_center.py:233-235 | a call touches only its own core's count |
| LogFilter.RunCount | usr/local/lib/steamos_diy/control_center.py:233-237 | after a sequence of calls, a core's count is its start plus its occurrences, capped at the limit |
| LogFilter.Verdict | usr/local/lib/steamos_diy/control_center.py:233-237 | a call is redundant exactly when the starting count plus the earlier calls with that core reach the limit |
| LogFilter.KeptCounted | usr/local/lib/steamos_diy/control_center.py:866-868 | each shown line adds exactly one to its core's count |
| LogFilter.RefreshShowsAtMostLimit | usr/local/lib/steamos_diy/control_center.py:796-868 | a refresh, which starts from a reset, shows at most `limit` lines of any one core |
| LogFilter.ShowLines | usr/local/lib/steamos_diy/control_center.py:866-868 | the viewer's loop ends with the filter and the shown lines its specification gives |
| GameLabels.NameOfLabel | usr/local/lib/steamos_diy/control_center.py:719 | reading a label back gives its name, when the name has no ` (` and no surrounding whitespace |
| GameLabels.NameOfCutsAtSeparator | usr/local/lib/steamos_diy/control_center.py:743 | a name with ` (` is cut there, so such a game's label does not lead back to it |
| GameLabels.FindIdFrom | usr/local/lib/steamos_diy/control_center.py:725-726 | the id found is all digits, and no `(` means no id |
| GameLabels.FindIdOfLabel | usr/local/lib/steamos_diy/control_center.py:725-726 | the id search finds the id in a label whose name has no `(` |
| GameLabels.FreshProfileCarriesId | usr/local/lib/steamos_diy/control_center.py:724-734 | a label with an id opens a new profile whose header carries that id and whose body carries the name |
| GameLabels.FreshProfileWithoutId | usr/local/lib/steamos_diy/control_center.py:727-734 | a plain name opens a new profile without a header |
| GameLabels.SaveGameProfile | usr/local/lib/steamos_diy/control_center.py:738-748 | the corrected save: blank text, a name holding `/` or invalid YAML saves nothing; otherwise `<name>.yaml` in `games.d` gets the text and no other profile changes |
| ProfilePath.SaveAsWritten | usr/local/lib/steamos_diy/control_center.py:738-748 | the save as written: blank text is skipped, invalid YAML is refused, and a written file holds the editor text at pathlib's join of `games.d` and `<name>.yaml`, which is opened only when every `..` in it steps out of an existing directory (a failed open is caught and the save refused) |
| ProfilePath.PlainNameSavedInGamesDir | usr/local/lib/steamos_diy/control_center.py:740-748 | a name without `/` is saved directly inside `games.d`, where the written code and the corrected save agree |
| ProfilePath.ParentNameEscapes | usr/local/lib/steamos_diy/control_center.py:743-748 | as written, the name `../<x>` overwrites `<x>.yaml` in the configuration root, outside `games.d` |
| ProfilePath.AbsoluteNameEscapes | usr/local/lib/steamos_diy/control_center.py:743-748 | as written, the name `/<x>` targets `/<x>.yaml`, outside the configuration root, and fails only if that directory refuses the file |
| ProfilePath.DetourNeedsDirectory | usr/local/lib/steamos_diy/control_center.py:597-606 | as written, the name `<x>/../<y>` writes `games.d/<y>.yaml` when `games.d/<x>` is an existing directory, and is refused otherwise, because the system's open fails and the error is caught |
| ProfilePath.UpsExistAppend | usr/local/lib/steamos_diy/control_center.py:597-600 | the path `p + q` opens only when `p` does and `q` does from where `p` leads |
| GameLabels.SaveThenLoad | usr/local/lib/steamos_diy/control_center.py:738-745 | a saved profile is what the same label opens next |
| GameLabels.Put | usr/local/lib/steamos_diy/control_center.py:775 | `detected[k] = v`: `k` now maps to `v`, other keys are unchanged, and keys stay unique |
| GameLabels.BaseName | usr/local/lib/steamos_diy/control_center.py:774 | the base name never contains `/` |
| GameLabels.See | usr/local/lib/steamos_diy/control_center.py:770-780 | a `chdir` makes its base name current; entries are never lost, keys stay unique, and values stay names or long ids |
| GameLabels.ScanAll | usr/local/lib/steamos_diy/control_center.py:770-780 | over all lines, keys stay unique and values stay names or long ids |
| GameLabels.ShortIdIgnored | usr/local/lib/steamos_diy/control_center.py:779-780 | an id of five digits or fewer changes no entry |
| GameLabels.LongIdReplaces | usr/local/lib/steamos_diy/control_center.py:776-780 | a longer id replaces the current game's value |
| GameLabels.AddStems | usr/local/lib/steamos_diy/control_center.py:782-786 | every `.yaml` profile ends up listed under its stem, and detected entries keep their values |
| GameLabels.GameList | usr/local/lib/steamos_diy/control_center.py:788-794 | the list is sorted and is a permutation of the entries' labels |
| GameLabels.DetectGood | usr/local/lib/steamos_diy/control_center.py:766-786 | each name is detected once, with the name itself or a long id as its value |
| GameLabels.DetectedListed | usr/local/lib/steamos_diy/control_center.py:789-794 | every detected game is listed with its label |
| GameLabels.ProfilesListed | usr/local/lib/steamos_diy/control_center.py:782-794 | every profile in `games.d` is detected, and listed under a label that reads back as its stem |
| Sorting.Sort | usr/local/lib/steamos_diy/control_center.py:794 | the result is sorted by code point and is a permutation of the input |
| Sorting.SortedUnique | usr/local/lib/steamos_diy/control_center.py:794 | two sorted permutations of each other are equal |
| Sorting.SortPermutationInvariant | usr/local/lib/steamos_diy/control_center.py:794 | the sorted list depends only on the multiset of labels, not on detection order |
| Templates.TemplateNameIdempotent | usr/local/lib/steamos_diy/control_center.py:561-565 | the template of a YAML or example name is an example name, and taking the template again changes nothing |
| Templates.TemplateNameOfOther | usr/local/lib/steamos_diy/control_center.py:564 | a name without `.yaml` or `.example.` is its own template |
| Templates.ExampleNameKept | usr/local/lib/steamos_diy/control_center.py:563 | any `<x>.example.<y>` is kept |
| Templates.YamlTemplate | usr/local/lib/steamos_diy/control_center.py:564 | a plain `<x>.yaml` has `<x>.example.yaml` as its template |
| Templates.ToggleTwiceRestores | usr/local/lib/steamos_diy/control_center.py:570-583 | viewing the template and going back restores the edited text |

## Left out

- Process operations are not modelled as themselves:
  - `logger` calls appear only as `Log` effects;
  - `subprocess.run` calls appear only as `Spawn` effects;
  - `time.sleep(0.5)` is dropped;
  - `mkdir` of `games.d` (sdy.py, control_center.py) is dropped;
  - `Path.resolve` (symlink resolution) is a parameter;
  - `os.execve` is an abstract outcome.
- `os.replace` is one atomic step. Its own atomicity is the operating system's promise, not modelled further.
- I/O errors other than the ones the code handles are not modelled. Examples: a full disk, a missing directory for the `.tmp` file, or a state file that cannot be read.
- `shlex.split` is a parameter, because it is a library tokenizer. Only "raises or not" and the token list are observed.
- Files are read as Python iterates them: lines keep their `\n`. Universal-newline translation is not modelled: Python turns both `\r\n` and a lone `\r` into `\n`. Decoding errors are not modelled either.
- Character classes:
  - `\d` and `isdigit` are ASCII digits only (Python's accept other Unicode digits);
  - `lower()` and `upper()` map ASCII letters, plus the one non-ASCII character that lowers to ASCII;
  - `\s` and `strip()` use Python's whitespace set.
- Environment variables containing NUL, which `os.environ` refuses, are not modelled. The empty name, which it also refuses, is modelled.
- The journal scan in `_parse_game_logs` takes each line's two regular-expression groups as given (`Sighting`). The regular expressions themselves are not modelled.
- `refresh_detected_games` is left out. It is a `journalctl | grep | tail` shell pipeline.
- GameLabels.SaveGameProfile: the YAML check in `_atomic_save` is the `valid` parameter. Error dialogs, the `with_suffix(".tmp")` file and the rename are left out; only the saved result is modelled.
- Qt widgets are left out: editors, buttons, highlighters, dialogs and threads. `Toggle` keeps only the editor text, the template flag and the cache.
- The rest of `control_center.py` is not part of this model: backup and restore, YAML beautifying, system actions and the log colouring. So are `backup.py`, `restore.py` and the `helpers/` shims.
- Coordination.SwitchDuringPass: the trigger and the supervisor write the same `<path>.tmp`. Writes that interleave inside it are not modelled; each component's write-then-rename is taken as two whole steps.
- StateFile.ApplyEffect: renaming a temporary file that another writer has already renamed away raises `FileNotFoundError` in Python. The model leaves the files unchanged instead.
- ProfilePath.SaveAsWritten: symbolic links inside the configuration root are not resolved, so a `..` after a link steps up from the link's own path. A missing configuration root, which makes the `mkdir` of `games.d` raise outside the `try` of `_atomic_save`, is not modelled.
- SessionLaunch.Iterate: the child's exit status is not an input, because the script discards it. A child that cannot be started is a crash of the pass.
- SessionLaunch.Run, Loop: only finitely many passes are modelled. The script's loop never ends.

## Findings

| source | as written | input that shows it | evidently intended | confidence | as-written member | corrected member |
|---|---|---|---|---|---|---|
| usr/local/lib/steamos_diy/sdy.py:130 | `os.execve(shlex.which(full_cmd[0]), ...)`: the `shlex` module has no `which`, so the attribute lookup raises `AttributeError`, which the `except` turns into a `CRITICAL ERROR` log line and exit status 1 | any launch that resolves, e.g. `sdy /games/foo/foo.exe` with a manifesto and no override | `shutil.which(full_cmd[0])`, the `PATH` lookup that gives `execve` a program path | high, not executed | LaunchResolver.LaunchAsWritten (with LaunchResolver.AsWrittenNeverLaunches) | LaunchResolver.Launch |
| usr/local/lib/steamos_diy/control_center.py:738-748 | `save_game_profile` joins the editable combo text onto `games.d` with no check for `/`, although `load_game_file` (line 717) ignores such text | the combo text `../config` with valid YAML in the editor: the save overwrites the global `config.yaml` in the configuration root instead of writing a profile | refuse a name holding `/` as `load_game_file` does, so a profile is only ever written inside `games.d` | medium, not executed | ProfilePath.SaveAsWritten (with ProfilePath.ParentNameEscapes and ProfilePath.AbsoluteNameEscapes) | GameLabels.SaveGameProfile |
