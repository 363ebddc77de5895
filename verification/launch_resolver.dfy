/** `run()` of `sdy.py`, the launch resolver: it finds a game's override
    file, layers the global manifesto and the override over the process
    environment, wraps the game's command line, logs one line and means to
    replace itself with the game. As written the program lookup before
    `execve` always raises, so it never does: `LaunchAsWritten` is the
    script as it stands and `Launch` the intended one. */
module LaunchResolver {
  import opened Wrappers
  import opened PyText
  import opened KvConfig
  import opened StateFile
  import opened Discovery

  /** The journal tag of the resolver. */
  const EngineTag := "steamos-diy-sdy"

  function Say(msg: string): Effect {
    Log(EngineTag, "[ENGINE] " + msg)
  }

  /** The keys that feed the command line rather than the environment. */
  const WrapperKey := "GAME_WRAPPER"
  const ExtraArgsKey := "GAME_EXTRA_ARGS"

  // ---------------------------------------------------------------------
  // Environment

  /** `for k, v in cfg.items(): if isinstance(v, str) and k not in skip:
      env[k] = v`. Distinct keys, so the order of the items is immaterial. */
  function Overlay(env: map<string, string>, cfg: map<string, Value>, skip: set<string>): map<string, string> {
    env + map k | k in cfg && cfg[k].Str? && k !in skip :: cfg[k].text
  }

  /** `cfg` gives key `k` a text value that a layer skipping `skip` exports. */
  predicate Exports(cfg: map<string, Value>, skip: set<string>, k: string) {
    k in cfg && cfg[k].Str? && k !in skip
  }

  /** The process environment, then the global manifesto, then (when an
      override was found) the override without its wrapper keys. */
  function FinalEnv(env: map<string, string>, global: map<string, Value>, specific: Option<map<string, Value>>): map<string, string> {
    var base := Overlay(env, global, {});
    match specific
    case None => base
    case Some(game) => Overlay(base, game, {WrapperKey, ExtraArgsKey})
  }

  /** Each variable of the final environment comes from the highest layer
      that sets it to text: the override (but never its wrapper keys), the
      manifesto, the process environment. A flag sets nothing, and a key no
      layer sets is absent. */
  lemma FinalEnvLookup(env: map<string, string>, global: map<string, Value>, specific: Option<map<string, Value>>, k: string)
    ensures var fromGame := specific.Some? && Exports(specific.value, {WrapperKey, ExtraArgsKey}, k);
      var e := FinalEnv(env, global, specific);
      && (k in e <==> fromGame || Exports(global, {}, k) || k in env)
      && (fromGame ==> e[k] == specific.value[k].text)
      && (!fromGame && Exports(global, {}, k) ==> e[k] == global[k].text)
      && (!fromGame && !Exports(global, {}, k) && k in env ==> e[k] == env[k])
  {
  }

  // ---------------------------------------------------------------------
  // Wrapper and extra arguments

  /** `game.get(key, global.get(key, ""))` when an override was found,
      `global.get(key, "")` otherwise. */
  function Setting(global: map<string, Value>, specific: Option<map<string, Value>>, key: string): Value {
    if specific.Some? && key in specific.value then specific.value[key]
    else if key in global then global[key]
    else Str("")
  }

  /** `shlex.split(v)` when `v` is truthy, nothing when it is `""`. The
      tokenizer is a library routine taken as given: `split(s)` is its
      token list, or `None` where it raises (an unclosed quote). A flag's
      `True` is no text: `shlex` tries to read from it as from a stream. */
  function Tokens(v: Value, split: string -> Option<seq<string>>): Result<seq<string>, string> {
    match v
    case Flag => Failure("AttributeError: 'bool' object has no attribute 'read'")
    case Str(s) =>
      if s == "" then Success([])
      else match split(s)
        case None => Failure("ValueError: No closing quotation")
        case Some(ts) => Success(ts)
  }

  // ---------------------------------------------------------------------
  // Resolution

  /** The files the resolver reads besides the central configuration:
      `files` by absolute path (the manifesto is looked up here), and the
      override directory `games.d` beside the manifesto, by file name. */
  datatype Host = Host(files: map<string, string>, games: map<string, string>)

  /** What the resolver settles on before it executes anything. */
  datatype Plan = Plan(gameId: string, override: Option<string>, env: map<string, string>, cmd: seq<string>)

  /** The manifesto's dictionary (`load_kv(user_manifesto)`). */
  function Global(host: Host, manifesto: string): map<string, Value> {
    LoadKv(if manifesto in host.files then Some(host.files[manifesto]) else None)
  }

  /** The override's dictionary, when one was found. */
  function Specific(host: Host, found: Option<string>): Option<map<string, Value>>
    requires found.Some? ==> found.value in host.games
  {
    match found
    case None => None
    case Some(f) => Some(LoadKv(Some(host.games[f])))
  }

  /** `user_config` from the central configuration. A missing key or a flag
      makes `Path(...)` raise `TypeError`, ending the script. */
  function ManifestoPath(central: map<string, Value>): Result<string, string> {
    if "user_config" in central && central["user_config"].Str? then Success(central["user_config"].text)
    else Failure("TypeError: expected str, bytes or os.PathLike object")
  }

  /** What the resolver has gathered once it knows the manifesto: the
      binary's stem, the override found, and the two dictionaries. */
  datatype Layers = Layers(exe: string, found: Option<string>, global: map<string, Value>, specific: Option<map<string, Value>>)

  /** Identification, discovery and loading. `resolved` is the path
      `Path.resolve` gives for the game's command; the binary's directory
      is its parent. */
  function Gather(resolved: Path, manifesto: string, host: Host): (l: Layers)
    ensures l.exe == Stem(Name(resolved))
    ensures l.found == Found(l.exe, Parent(resolved), host.games.Keys)
    ensures l.found.Some? ==> l.found.value in host.games && l.specific == Some(LoadKv(Some(host.games[l.found.value])))
    ensures l.found.None? ==> l.specific.None?
    ensures l.global == Global(host, manifesto)
  {
    var exe := Stem(Name(resolved));
    var found := Found(exe, Parent(resolved), host.games.Keys);
    assert found.Some? ==> found.value in host.games by {
      if found.Some? {
        FoundIsCandidate(exe, Parent(resolved), host.games.Keys);
      }
    }
    Layers(exe, found, Global(host, manifesto), Specific(host, found))
  }

  /** The merge and the command line: `tokens(wrapper) + args +
      tokens(extra args)`. */
  function Assemble(args: seq<string>, l: Layers, env: map<string, string>, split: string -> Option<seq<string>>): (r: Result<Plan, string>)
    ensures r.Success? <==>
      Tokens(Setting(l.global, l.specific, WrapperKey), split).Success? && Tokens(Setting(l.global, l.specific, ExtraArgsKey), split).Success?
    ensures r.Success? ==> r.value.override == l.found && r.value.gameId == GameId(l.exe, l.found)
    ensures r.Success? ==> r.value.env == FinalEnv(env, l.global, l.specific)
  {
    var wrapper :- Tokens(Setting(l.global, l.specific, WrapperKey), split);
    var extra :- Tokens(Setting(l.global, l.specific, ExtraArgsKey), split);
    Success(Plan(GameId(l.exe, l.found), l.found, FinalEnv(env, l.global, l.specific), wrapper + args + extra))
  }

  /** `args` occurs in `cmd` as a contiguous run starting at index `w`. */
  predicate RunAt(args: seq<string>, cmd: seq<string>, w: nat) {
    w + |args| <= |cmd| && cmd[w..w + |args|] == args
  }

  /** The game's own arguments reach the command whole and in order, behind
      the wrapper's tokens; with no wrapper and no extra arguments the
      command is exactly what the resolver was given. */
  lemma CommandKeepsArgs(args: seq<string>, l: Layers, env: map<string, string>, split: string -> Option<seq<string>>)
    requires Assemble(args, l, env, split).Success?
    ensures exists w: nat :: RunAt(args, Assemble(args, l, env, split).value.cmd, w)
    ensures Setting(l.global, l.specific, WrapperKey) == Str("") && Setting(l.global, l.specific, ExtraArgsKey) == Str("") ==>
      Assemble(args, l, env, split).value.cmd == args
  {
    var w := Tokens(Setting(l.global, l.specific, WrapperKey), split).value;
    var x := Tokens(Setting(l.global, l.specific, ExtraArgsKey), split).value;
    var cmd := Assemble(args, l, env, split).value.cmd;
    assert cmd == w + args + x;
    assert RunAt(args, cmd, |w|) by {
      assert cmd[|w|..|w| + |args|] == args;
    }
  }

  /** `cmd` starts with `ts`. */
  predicate Leads(cmd: seq<string>, ts: seq<string>) {
    |ts| <= |cmd| && cmd[..|ts|] == ts
  }

  /** `cmd` ends with `ts`. */
  predicate Trails(cmd: seq<string>, ts: seq<string>) {
    |ts| <= |cmd| && cmd[|cmd| - |ts|..] == ts
  }

  /** The override was found and has its own line for `key`. */
  predicate OverrideSets(l: Layers, key: string) {
    l.specific.Some? && key in l.specific.value
  }

  /** `cmd` starts with the tokens of the wrapper text `v` and then the
      game's arguments; an empty text puts nothing in front of them. */
  predicate WrappedBy(cmd: seq<string>, v: Value, args: seq<string>, split: string -> Option<seq<string>>) {
    && v.Str?
    && (v.text == "" ==> Leads(cmd, args))
    && (v.text != "" ==> split(v.text).Some? && Leads(cmd, split(v.text).value + args))
  }

  /** `cmd` ends with the game's arguments and then the tokens of the
      extra-arguments text `v`; an empty text puts nothing behind them. */
  predicate ExtendedBy(cmd: seq<string>, v: Value, args: seq<string>, split: string -> Option<seq<string>>) {
    && v.Str?
    && (v.text == "" ==> Trails(cmd, args))
    && (v.text != "" ==> split(v.text).Some? && Trails(cmd, args + split(v.text).value))
  }

  /** How many tokens the setting `v` contributes to the command. */
  function TokenCount(v: Value, split: string -> Option<seq<string>>): nat {
    if v.Str? && v.text != "" && split(v.text).Some? then |split(v.text).value| else 0
  }

  /** Which layer's `GAME_WRAPPER` leads the command: the override's when it
      has the key, even an empty one, which cancels the manifesto's; else
      the manifesto's; with neither, the command starts with the game's own
      arguments. */
  lemma WrapperPrecedence(args: seq<string>, l: Layers, env: map<string, string>, split: string -> Option<seq<string>>)
    requires Assemble(args, l, env, split).Success?
    ensures var cmd := Assemble(args, l, env, split).value.cmd;
      && (OverrideSets(l, WrapperKey) ==> WrappedBy(cmd, l.specific.value[WrapperKey], args, split))
      && (!OverrideSets(l, WrapperKey) && WrapperKey in l.global ==> WrappedBy(cmd, l.global[WrapperKey], args, split))
      && (!OverrideSets(l, WrapperKey) && WrapperKey !in l.global ==> Leads(cmd, args))
      && |cmd| == TokenCount(Setting(l.global, l.specific, WrapperKey), split) + |args|
                  + TokenCount(Setting(l.global, l.specific, ExtraArgsKey), split)
  {
    var v := Setting(l.global, l.specific, WrapperKey);
    var w := Tokens(v, split).value;
    var x := Tokens(Setting(l.global, l.specific, ExtraArgsKey), split).value;
    var cmd := Assemble(args, l, env, split).value.cmd;
    assert cmd == w + args + x;
    assert cmd[..|w + args|] == w + args;
    if v == Str("") {
      assert w == [];
      assert cmd[..|args|] == args;
    }
  }

  /** Which layer's `GAME_EXTRA_ARGS` ends the command, by the same
      precedence as the wrapper; with neither layer setting it the command
      ends with the game's own arguments. */
  lemma ExtraArgsPrecedence(args: seq<string>, l: Layers, env: map<string, string>, split: string -> Option<seq<string>>)
    requires Assemble(args, l, env, split).Success?
    ensures var cmd := Assemble(args, l, env, split).value.cmd;
      && (OverrideSets(l, ExtraArgsKey) ==> ExtendedBy(cmd, l.specific.value[ExtraArgsKey], args, split))
      && (!OverrideSets(l, ExtraArgsKey) && ExtraArgsKey in l.global ==> ExtendedBy(cmd, l.global[ExtraArgsKey], args, split))
      && (!OverrideSets(l, ExtraArgsKey) && ExtraArgsKey !in l.global ==> Trails(cmd, args))
      && |cmd| == TokenCount(Setting(l.global, l.specific, WrapperKey), split) + |args|
                  + TokenCount(Setting(l.global, l.specific, ExtraArgsKey), split)
  {
    var v := Setting(l.global, l.specific, ExtraArgsKey);
    var w := Tokens(Setting(l.global, l.specific, WrapperKey), split).value;
    var x := Tokens(v, split).value;
    var cmd := Assemble(args, l, env, split).value.cmd;
    assert cmd == w + args + x;
    assert cmd[|cmd| - |args + x|..] == args + x;
    if v == Str("") {
      assert x == [];
      assert cmd[|cmd| - |args|..] == args;
    }
  }

  /** The first argument names the program; wrapper tokens, when there are
      any, come before it. */
  lemma CommandStartsWithWrapper(args: seq<string>, l: Layers, env: map<string, string>, split: string -> Option<seq<string>>)
    requires |args| > 0 && Assemble(args, l, env, split).Success?
    ensures var w := Tokens(Setting(l.global, l.specific, WrapperKey), split).value;
      var cmd := Assemble(args, l, env, split).value.cmd;
      && |cmd| > |w|
      && cmd[..|w|] == w
      && (|w| == 0 ==> cmd[0] == args[0])
  {
    var w := Tokens(Setting(l.global, l.specific, WrapperKey), split).value;
    var x := Tokens(Setting(l.global, l.specific, ExtraArgsKey), split).value;
    var cmd := Assemble(args, l, env, split).value.cmd;
    assert cmd == w + args + x;
  }

  /** Everything `run()` does up to the log line. `args` are the command-line
      arguments after the script name, `ssot` the text of the central
      configuration file (`None` when it is missing). */
  function Resolve(args: seq<string>, resolved: Path, ssot: Option<string>, host: Host,
                   env: map<string, string>, split: string -> Option<seq<string>>): (r: Result<Plan, string>)
    requires |args| > 0
    ensures ManifestoPath(LoadKv(ssot)).Failure? ==> r.Failure?
    ensures ManifestoPath(LoadKv(ssot)).Success? ==>
      r == Assemble(args, Gather(resolved, ManifestoPath(LoadKv(ssot)).value, host), env, split)
    ensures r.Success? ==> |r.value.cmd| > 0
  {
    var manifesto :- ManifestoPath(LoadKv(ssot));
    var l := Gather(resolved, manifesto, host);
    var r := Assemble(args, l, env, split);
    assert r.Success? ==> |r.value.cmd| > 0 by {
      if r.Success? {
        CommandStartsWithWrapper(args, l, env, split);
      }
    }
    r
  }

  /** The `Conf:` field of the log line: the override's file name, or
      `GLOBAL`. */
  function ConfName(found: Option<string>): string {
    match found
    case Some(f) => f
    case None => "GLOBAL"
  }

  /** The log line reads `GLOBAL` exactly when no override was found: an
      override's name always ends in `.conf`. */
  lemma ConfNameGlobalIff(exe: string, binDir: Path, existing: set<string>)
    ensures ConfName(Found(exe, binDir, existing)) == "GLOBAL" <==> Found(exe, binDir, existing).None?
  {
    var found := Found(exe, binDir, existing);
    if found.Some? {
      FoundIsCandidate(exe, binDir, existing);
      var f := found.value;
      assert f[|f| - 5..] == ".conf" by {
        if f == exe + ".conf" {
          assert f[|exe|..] == ".conf";
        } else {
          var k :| 0 <= k < MaxLevels && f == Name(Ancestor(binDir, k)) + ".conf";
          assert f[|Name(Ancestor(binDir, k))|..] == ".conf";
        }
      }
      assert "GLOBAL"[1..] != ".conf";
    }
  }

  /** `ID: <game id> | Conf: <conf> | Cmd: <program>`. */
  function LogLine(p: Plan): string
    requires |p.cmd| > 0
  {
    "ID: " + p.gameId + " | Conf: " + ConfName(p.override) + " | Cmd: " + p.cmd[0]
  }

  // ---------------------------------------------------------------------
  // Execution

  /** How a run ends. */
  datatype Outcome =
    | Usage                                          // no argument: usage text, exit status 1
    | Crashed(error: string)                         // an uncaught exception
    | Replaced(log: seq<Effect>, program: string, argv: seq<string>, env: map<string, string>)
                                                     // `os.execve` took over the process
    | Failed(log: seq<Effect>)                       // logged `CRITICAL ERROR`, exit status 1

  /** The `try: os.execve(<program>, cmd, env) except Exception: log;
      exit(1)` block. `program` is the executable lookup's result, or the
      error it raised; `execError` is the error `execve` itself reports,
      `None` when it replaces the process. */
  function Execute(p: Plan, program: Result<string, string>, execError: Option<string>): (o: Outcome)
    requires |p.cmd| > 0
    ensures o.Replaced? <==> program.Success? && execError.None?
    ensures o.Replaced? ==> o == Replaced([Say(LogLine(p))], program.value, p.cmd, p.env)
    ensures !o.Replaced? ==>
      && o.Failed? && |o.log| == 2 && o.log[0] == Say(LogLine(p))
      && o.log[1] == Say("CRITICAL ERROR: " + if program.Failure? then program.error else execError.value)
  {
    var logged := [Say(LogLine(p))];
    match program
    case Failure(e) => Failed(logged + [Say("CRITICAL ERROR: " + e)])
    case Success(prog) =>
      match execError
      case None => Replaced(logged, prog, p.cmd, p.env)
      case Some(e) => Failed(logged + [Say("CRITICAL ERROR: " + e)])
  }

  /** `shutil.which(name)`, with `which` the `PATH` search it performs;
      `execve` refuses the `None` it returns for an unknown program. */
  function ShutilWhich(which: string -> Option<string>, name: string): Result<string, string> {
    match which(name)
    case Some(path) => Success(path)
    case None => Failure("expected str, bytes or os.PathLike object, not NoneType")
  }

  /** `shlex.which(name)` as the script writes it: the `shlex` module has no
      `which`, so the lookup raises before `execve` is reached. */
  function ShlexWhich(name: string): Result<string, string> {
    Failure(NoShlexWhich)
  }

  const NoShlexWhich := "module 'shlex' has no attribute 'which'"

  /** `run()` with the program looked up through `shutil.which`, the
      lookup the call evidently means. */
  function Launch(args: seq<string>, resolved: Path, ssot: Option<string>, host: Host,
                  env: map<string, string>, split: string -> Option<seq<string>>,
                  which: string -> Option<string>, execError: Option<string>): (o: Outcome)
    ensures |args| == 0 <==> o == Usage
    ensures |args| > 0 ==> (o.Crashed? <==> Resolve(args, resolved, ssot, host, env, split).Failure?)
    ensures o.Replaced? ==>
      var p := Resolve(args, resolved, ssot, host, env, split).value;
      && which(p.cmd[0]) == Some(o.program) && execError.None?
      && o.argv == p.cmd && o.env == p.env
  {
    if |args| == 0 then Usage
    else match Resolve(args, resolved, ssot, host, env, split)
      case Failure(e) => Crashed(e)
      case Success(p) => Execute(p, ShutilWhich(which, p.cmd[0]), execError)
  }

  /** `run()` exactly as written, calling `shlex.which`. */
  function LaunchAsWritten(args: seq<string>, resolved: Path, ssot: Option<string>, host: Host,
                           env: map<string, string>, split: string -> Option<seq<string>>,
                           execError: Option<string>): (o: Outcome)
    ensures !o.Replaced?
  {
    if |args| == 0 then Usage
    else match Resolve(args, resolved, ssot, host, env, split)
      case Failure(e) => Crashed(e)
      case Success(p) => Execute(p, ShlexWhich(p.cmd[0]), execError)
  }

  /** The two differ on every launch that gets as far as executing: the
      written code logs a critical error and exits with status 1 where the
      intended lookup hands the process over to the game. */
  lemma AsWrittenNeverLaunches(args: seq<string>, resolved: Path, ssot: Option<string>, host: Host,
                               env: map<string, string>, split: string -> Option<seq<string>>,
                               which: string -> Option<string>)
    requires |args| > 0 && Resolve(args, resolved, ssot, host, env, split).Success?
    requires which(Resolve(args, resolved, ssot, host, env, split).value.cmd[0]).Some?
    ensures Launch(args, resolved, ssot, host, env, split, which, None).Replaced?
    ensures LaunchAsWritten(args, resolved, ssot, host, env, split, None).Failed?
    ensures LaunchAsWritten(args, resolved, ssot, host, env, split, None).log[1]
      == Say("CRITICAL ERROR: " + NoShlexWhich)
  {
    var p := Resolve(args, resolved, ssot, host, env, split).value;
    assert Launch(args, resolved, ssot, host, env, split, which, None) == Execute(p, ShutilWhich(which, p.cmd[0]), None);
    assert LaunchAsWritten(args, resolved, ssot, host, env, split, None) == Execute(p, ShlexWhich(p.cmd[0]), None);
  }
}
