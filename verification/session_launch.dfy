/** `session_launch.py`, the supervisor: it reads the configuration once,
    exports it to the environment, then loops forever running whichever
    session the next-session file names and, when that session exits,
    writing the other one back. */
module SessionLaunch {
  import opened Wrappers
  import opened PyText
  import opened KvConfig
  import opened StateFile

  function Say(msg: string): Effect {
    Log(JournalTag, "[LAUNCHER] " + msg)
  }

  // ---------------------------------------------------------------------
  // Startup

  /** `os.environ[key] = val` for each entry in file order. Python refuses
      an empty variable name with `ValueError`, which ends the script. */
  function ExportEntries(env: map<string, string>, es: seq<Option<(string, string)>>): Result<map<string, string>, string>
    decreases |es|
  {
    if |es| == 0 then Success(env)
    else match es[0]
      case None => ExportEntries(env, es[1..])
      case Some((k, v)) =>
        if k == "" then Failure("ValueError: illegal environment variable name")
        else ExportEntries(env[k := v], es[1..])
  }

  /** Some entry assigns the empty key. */
  predicate DefinesEmpty(es: seq<Option<(string, string)>>) {
    exists i :: 0 <= i < |es| && Defines(es[i], "")
  }

  lemma {:induction false} ExportFailsOnEmptyKey(env: map<string, string>, es: seq<Option<(string, string)>>)
    ensures ExportEntries(env, es).Success? <==> !DefinesEmpty(es)
    decreases |es|
  {
    if |es| > 0 {
      assert DefinesEmpty(es) <==> Defines(es[0], "") || DefinesEmpty(es[1..]) by {
        if DefinesEmpty(es) {
          var i :| 0 <= i < |es| && Defines(es[i], "");
          if i > 0 {
            assert es[1..][i - 1] == es[i];
          }
        }
        if DefinesEmpty(es[1..]) {
          var i :| 0 <= i < |es[1..]| && Defines(es[1..][i], "");
          assert es[i + 1] == es[1..][i];
        }
      }
      match es[0]
      case None =>
        ExportFailsOnEmptyKey(env, es[1..]);
      case Some((k, v)) =>
        if k != "" {
          ExportFailsOnEmptyKey(env[k := v], es[1..]);
        }
    }
  }

  /** One entry's contribution to the configuration dictionary. */
  lemma CollectOne(e: Option<(string, string)>)
    ensures e.None? ==> Collect([e]) == map[]
    ensures e.Some? ==> Collect([e]) == map[e.value.0 := e.value.1]
  {
    assert [e][..0] == [];
  }

  /** When it succeeds, the export leaves the environment it started from
      with every configured key overlaid, each with the value the
      configuration dictionary holds for it. */
  lemma {:induction false} ExportOverlays(env: map<string, string>, es: seq<Option<(string, string)>>)
    requires ExportEntries(env, es).Success?
    ensures ExportEntries(env, es).value == env + Collect(es)
    decreases |es|
  {
    if |es| == 0 {
      assert Collect(es) == map[];
    } else {
      var rest := Collect(es[1..]);
      match es[0]
      case None =>
        assert ExportEntries(env, es) == ExportEntries(env, es[1..]);
        ExportOverlays(env, es[1..]);
        assert Collect(es) == rest by {
          CollectSplit(es);
          CollectOne(es[0]);
        }
      case Some((k, v)) =>
        assert ExportEntries(env, es) == ExportEntries(env[k := v], es[1..]);
        assert ExportEntries(env[k := v], es[1..]).value == env[k := v] + rest by {
          ExportOverlays(env[k := v], es[1..]);
        }
        OverlayStep(env, k, v, es);
    }
  }

  /** Exporting `k=v` first, then the rest, overlays all of `es`. */
  lemma OverlayStep(env: map<string, string>, k: string, v: string, es: seq<Option<(string, string)>>)
    requires |es| > 0 && es[0] == Some((k, v))
    ensures env[k := v] + Collect(es[1..]) == env + Collect(es)
  {
    CollectHead(k, v, es);
    OverlayMaps(env, k, v, Collect(es[1..]));
  }

  lemma CollectHead(k: string, v: string, es: seq<Option<(string, string)>>)
    requires |es| > 0 && es[0] == Some((k, v))
    ensures Collect(es) == map[k := v] + Collect(es[1..])
  {
    CollectSplit(es);
    CollectOne(es[0]);
  }

  /** Setting `k` and then overlaying `rest` overlays `k` and `rest` at once. */
  lemma OverlayMaps(env: map<string, string>, k: string, v: string, rest: map<string, string>)
    ensures env[k := v] + rest == env + (map[k := v] + rest)
  {
    var lhs := env[k := v] + rest;
    var rhs := env + (map[k := v] + rest);
    assert lhs.Keys == rhs.Keys;
    forall key | key in lhs ensures lhs[key] == rhs[key] {
      if key !in rest && key == k {
        assert lhs[key] == v == rhs[key];
      }
    }
  }

  lemma CollectSplit<V>(es: seq<Option<(string, V)>>)
    requires |es| > 0
    ensures Collect(es) == Collect([es[0]]) + Collect(es[1..])
  {
    assert es == [es[0]] + es[1..];
    CollectAppend([es[0]], es[1..]);
  }

  /** What startup leaves behind: the configuration and the environment the
      sessions inherit. */
  datatype Boot = Boot(conf: map<string, string>, env: map<string, string>)

  /** The startup block; `ssot` is the configuration file's text, and a
      missing file ends the script (its `open` is not guarded). */
  function Start(ssot: Option<string>, env: map<string, string>): (r: Result<Boot, string>)
    ensures ssot.None? ==> r.Failure?
    ensures ssot.Some? ==> (r.Success? <==> !DefinesEmpty(EqEntries(FileLines(ssot.value))))
    ensures r.Success? ==> r.value.conf == LoadSsot(ssot.value) && r.value.env == env + r.value.conf
  {
    match ssot
    case None => Failure("FileNotFoundError")
    case Some(text) =>
      var es := EqEntries(FileLines(text));
      ExportFailsOnEmptyKey(env, es);
      var exported :- ExportEntries(env, es);
      ExportOverlays(env, es);
      Success(Boot(LoadSsot(text), exported))
  }

  // ---------------------------------------------------------------------
  // The session loop

  datatype Session = Steam | Desktop

  /** The word the next-session file holds for each session. */
  function Token(s: Session): string {
    match s
    case Steam => "steam"
    case Desktop => "desktop"
  }

  function Other(s: Session): Session {
    match s
    case Steam => Desktop
    case Desktop => Steam
  }

  /** The target the loop reads: the file's stripped content; a missing
      `next_session` key or a missing file read as `steam`. */
  function ReadTarget(conf: map<string, string>, fs: Fs): string {
    if "next_session" in conf && conf["next_session"] in fs then Strip(fs[conf["next_session"]])
    else "steam"
  }

  /** Only the exact word `steam` runs Steam; anything else the file may
      hold, an empty file or a typo included, runs the desktop. */
  function SessionFor(target: string): (s: Session)
    ensures s == Steam <==> target == Token(Steam)
  {
    if target == "steam" then Steam else Desktop
  }

  /** A target the file holds is read back as the session it names. */
  lemma TokenRoundTrip(s: Session)
    ensures SessionFor(Strip(Token(s))) == s
  {
    TrimOfTrimmed(Token(s), Space);
  }

  /** A file holding a session's word with whitespace around it, such as
      the line `echo steam >` leaves, is read as that session. */
  lemma ReadTargetPadded(conf: map<string, string>, fs: Fs, s: Session, pre: string, post: string)
    requires "next_session" in conf && conf["next_session"] in fs
    requires fs[conf["next_session"]] == pre + Token(s) + post
    requires forall i :: 0 <= i < |pre| ==> IsSpace(pre[i])
    requires forall i :: 0 <= i < |post| ==> IsSpace(post[i])
    ensures SessionFor(ReadTarget(conf, fs)) == s
  {
    TrimPadded(pre, Token(s), post, Space);
  }

  /** The child for each session, built from the configured binaries;
      `None` when a binary key is missing (a `KeyError` in the script). */
  function Command(s: Session, conf: map<string, string>): (cmd: Option<seq<string>>)
    ensures s == Steam ==> (cmd.Some? <==> "bin_gs" in conf && "bin_steam" in conf)
    ensures s == Desktop ==> (cmd.Some? <==> "bin_plasma" in conf)
    ensures cmd.Some? ==> |cmd.value| == if s == Steam then 7 else 1
    ensures cmd.Some? && s == Steam ==>
      // gamescope, embedded and full-screen, with Steam's game-mode UI as its child
      && cmd.value[..4] == [conf["bin_gs"], "-e", "-f", "--"]
      && cmd.value[4..] == [conf["bin_steam"], "-gamepadui", "-steamos3"]
    ensures cmd.Some? && s == Desktop ==> cmd.value == [conf["bin_plasma"]]
  {
    match s
    case Steam =>
      if "bin_gs" in conf && "bin_steam" in conf then
        Some([conf["bin_gs"], "-e", "-f", "--", conf["bin_steam"], "-gamepadui", "-steamos3"])
      else None
    case Desktop =>
      if "bin_plasma" in conf then Some([conf["bin_plasma"]]) else None
  }

  function StartMessage(s: Session): string {
    match s
    case Steam => "Avvio sessione STEAM (Game Mode)."
    case Desktop => "Avvio sessione DESKTOP (Plasma)."
  }

  function EndMessage(s: Session): string {
    match s
    case Steam => "Sessione Steam terminata. Switch a Desktop impostato."
    case Desktop => "Sessione Desktop terminata. Switch a Steam impostato."
  }

  /** What one pass did: its effects, the session whose child ran (if one
      started), and whether the pass ended in an uncaught error. */
  datatype Step = Step(effects: seq<Effect>, ran: Option<Session>, crashed: bool)

  /** One pass of the `while True` body, up to the pause. The child's exit
      status is discarded by the script and so is no input here: which
      session comes next depends only on which one ran. */
  function Iterate(conf: map<string, string>, fs: Fs, launches: string -> bool): (st: Step)
    ensures |st.effects| >= 1 && st.effects[0] == Say(StartMessage(SessionFor(ReadTarget(conf, fs))))
    ensures st.ran.Some? ==> st.ran.value == SessionFor(ReadTarget(conf, fs))
    ensures st.ran.None? <==>
      var cmd := Command(SessionFor(ReadTarget(conf, fs)), conf);
      cmd.None? || !launches(cmd.value[0])
    ensures st.ran.None? ==> st.crashed && |st.effects| == 1
    ensures st.ran.Some? ==> |st.effects| == if st.crashed then 3 else 5
    ensures st.ran.Some? ==> (st.crashed <==> "next_session" !in conf)
    ensures st.ran.Some? ==>
      st.effects[1..3] == [Spawn(Command(st.ran.value, conf).value), Say(EndMessage(st.ran.value))]
    ensures !st.crashed ==>
      st.effects[3..] == AtomicWrite(conf["next_session"], Token(Other(st.ran.value)))
  {
    var s := SessionFor(ReadTarget(conf, fs));
    var start := [Say(StartMessage(s))];
    match Command(s, conf)
    case None => Step(start, None, true)
    case Some(cmd) =>
      if !launches(cmd[0]) then Step(start, None, true)
      else
        var ran := start + [Spawn(cmd), Say(EndMessage(s))];
        if "next_session" !in conf then Step(ran, Some(s), true)
        else
          var es := ran + AtomicWrite(conf["next_session"], Token(Other(s)));
          assert es[1..3] == [Spawn(cmd), Say(EndMessage(s))] && es[3..] == AtomicWrite(conf["next_session"], Token(Other(s)));
          Step(es, Some(s), false)
  }

  /** The child a pass starts depends only on the file's stripped text:
      the exact word `steam` starts gamescope, embedded and full-screen,
      with Steam's game-mode UI inside; anything else, an empty file or an
      unknown word included, starts the Plasma binary. */
  lemma IterateSpawns(conf: map<string, string>, fs: Fs, launches: string -> bool)
    requires Iterate(conf, fs, launches).ran.Some?
    ensures var e := Iterate(conf, fs, launches).effects[1];
      && (ReadTarget(conf, fs) == "steam" ==>
            && "bin_gs" in conf && "bin_steam" in conf
            && e == Spawn([conf["bin_gs"], "-e", "-f", "--", conf["bin_steam"], "-gamepadui", "-steamos3"]))
      && (ReadTarget(conf, fs) != "steam" ==>
            "bin_plasma" in conf && e == Spawn([conf["bin_plasma"]]))
  {
    var st := Iterate(conf, fs, launches);
    var cmd := Command(st.ran.value, conf).value;
    assert st.effects[1] == st.effects[1..3][0] == Spawn(cmd);
    if st.ran.value == Steam {
      assert cmd == cmd[..4] + cmd[4..];
    }
  }

  /** A pass that completes leaves the other session's word in the file,
      touching no file but that one and its temporary. */
  lemma IterateWritesOther(conf: map<string, string>, fs: Fs, launches: string -> bool)
    requires !Iterate(conf, fs, launches).crashed
    ensures var st := Iterate(conf, fs, launches);
      var fs' := Apply(fs, st.effects);
      var path := conf["next_session"];
      && Reads(fs', path, Token(Other(st.ran.value)))
      && forall p :: p != path && p != TmpPath(path) ==> (p in fs' <==> p in fs) && (p in fs ==> fs'[p] == fs[p])
  {
    var st := Iterate(conf, fs, launches);
    var path := conf["next_session"];
    assert st.effects == st.effects[..3] + st.effects[3..];
    ApplyConcat(fs, st.effects[..3], st.effects[3..]);
    assert Harmless(st.effects[..3]) by {
      assert st.effects[..3] == [st.effects[0]] + st.effects[1..3];
    }
    ApplyHarmless(fs, st.effects[..3]);
    AtomicWriteResult(fs, path, Token(Other(st.ran.value)));
  }

  /** Everything the loop needs to run forever: the keys it reads and
      binaries that start. */
  predicate Healthy(conf: map<string, string>, launches: string -> bool) {
    && "next_session" in conf
    && "bin_gs" in conf && "bin_steam" in conf && "bin_plasma" in conf
    && launches(conf["bin_gs"]) && launches(conf["bin_plasma"])
  }

  /** The first `n` passes of the loop, stopping at the first crash. */
  datatype Trace = Trace(effects: seq<Effect>, sessions: seq<Session>, fs: Fs, crashed: bool)

  /** `n` passes of any pass function `step`, each on the files the one
      before left. */
  function Run(step: Fs -> Step, fs: Fs, n: nat): (t: Trace)
    ensures |t.sessions| <= n
    decreases n
  {
    if n == 0 then Trace([], [], fs, false)
    else
      var st := step(fs);
      var fs1 := Apply(fs, st.effects);
      var ran := if st.ran.Some? then [st.ran.value] else [];
      if st.crashed then Trace(st.effects, ran, fs1, true)
      else
        var rest := Run(step, fs1, n - 1);
        Trace(st.effects + rest.effects, ran + rest.sessions, rest.fs, rest.crashed)
  }

  /** The supervisor's loop, `n` passes long. */
  function Loop(conf: map<string, string>, fs: Fs, launches: string -> bool, n: nat): Trace {
    Run(p => Iterate(conf, p, launches), fs, n)
  }

  /** A healthy pass completes, and the pass after it runs the other
      session. */
  lemma HealthyPass(conf: map<string, string>, fs: Fs, launches: string -> bool)
    requires Healthy(conf, launches)
    ensures var st := Iterate(conf, fs, launches);
      && !st.crashed && st.ran == Some(SessionFor(ReadTarget(conf, fs)))
      && SessionFor(ReadTarget(conf, Apply(fs, st.effects))) == Other(st.ran.value)
  {
    var st := Iterate(conf, fs, launches);
    var s := SessionFor(ReadTarget(conf, fs));
    assert Command(s, conf).Some?;
    IterateWritesOther(conf, fs, launches);
    TokenRoundTrip(Other(s));
  }

  /** A pass that completes is followed by the remaining passes, run on
      the files it left behind. */
  lemma LoopStep(conf: map<string, string>, fs: Fs, launches: string -> bool, n: nat)
    requires n > 0 && !Iterate(conf, fs, launches).crashed
    ensures var st := Iterate(conf, fs, launches);
      var rest := Loop(conf, Apply(fs, st.effects), launches, n - 1);
      && Loop(conf, fs, launches, n).sessions == [st.ran.value] + rest.sessions
      && Loop(conf, fs, launches, n).crashed == rest.crashed
      && Loop(conf, fs, launches, n).fs == rest.fs
  {
  }

  /** `sessions` starts with `first` and then alternates. */
  predicate Alternating(sessions: seq<Session>, first: Session) {
    && (|sessions| > 0 ==> sessions[0] == first)
    && forall i :: 0 <= i < |sessions| - 1 ==> sessions[i + 1] == Other(sessions[i])
  }

  lemma AlternatingCons(s: Session, rest: seq<Session>)
    requires Alternating(rest, Other(s))
    ensures Alternating([s] + rest, s)
  {
    var t := [s] + rest;
    forall i | 0 <= i < |t| - 1
      ensures t[i + 1] == Other(t[i])
    {
      assert t[i + 1] == rest[i];
      if i > 0 {
        assert t[i] == rest[i - 1];
      }
    }
  }

  /** A pass function that never fails, runs the session `at` names for
      the files it starts from, and leaves files naming the other one,
      runs alternating sessions forever. */
  lemma {:induction false} RunAlternates(step: Fs -> Step, at: Fs -> Session, fs: Fs, n: nat)
    requires forall p :: !step(p).crashed && step(p).ran == Some(at(p))
    requires forall p :: at(Apply(p, step(p).effects)) == Other(at(p))
    ensures !Run(step, fs, n).crashed
    ensures |Run(step, fs, n).sessions| == n
    ensures Alternating(Run(step, fs, n).sessions, at(fs))
    decreases n
  {
    if n > 0 {
      var fs1 := Apply(fs, step(fs).effects);
      RunAlternates(step, at, fs1, n - 1);
      AlternatingCons(at(fs), Run(step, fs1, n - 1).sessions);
    }
  }

  /** With a healthy configuration the loop never stops, starts with the
      session the file names (Steam when it names none), and then
      alternates: every session is followed by the other one. */
  lemma LoopAlternates(conf: map<string, string>, fs: Fs, launches: string -> bool, n: nat)
    requires Healthy(conf, launches)
    ensures !Loop(conf, fs, launches, n).crashed
    ensures |Loop(conf, fs, launches, n).sessions| == n
    ensures Alternating(Loop(conf, fs, launches, n).sessions, SessionFor(ReadTarget(conf, fs)))
  {
    var step := p => Iterate(conf, p, launches);
    var at := p => SessionFor(ReadTarget(conf, p));
    forall p ensures !step(p).crashed && step(p).ran == Some(at(p)) && at(Apply(p, step(p).effects)) == Other(at(p)) {
      HealthyPass(conf, p, launches);
    }
    RunAlternates(step, at, fs, n);
  }

  /** Two healthy passes run both sessions once each and leave the file
      naming the session the first pass ran: steam, desktop, steam. */
  lemma TwoPassesReturn(conf: map<string, string>, fs: Fs, launches: string -> bool)
    requires Healthy(conf, launches)
    ensures var s := SessionFor(ReadTarget(conf, fs));
      var t := Loop(conf, fs, launches, 2);
      && t.sessions == [s, Other(s)]
      && !t.crashed
      && SessionFor(ReadTarget(conf, t.fs)) == s
  {
    var s := SessionFor(ReadTarget(conf, fs));
    var step := p => Iterate(conf, p, launches);
    var fs1 := Apply(fs, step(fs).effects);
    var fs2 := Apply(fs1, step(fs1).effects);
    HealthyPass(conf, fs, launches);
    HealthyPass(conf, fs1, launches);
    assert step(fs1).ran == Some(Other(s));
    TwoRuns(step, fs);
    assert SessionFor(ReadTarget(conf, fs2)) == Other(Other(s));
  }

  /** Two passes that complete, each on the files the one before left. */
  lemma TwoRuns(step: Fs -> Step, fs: Fs)
    requires !step(fs).crashed && step(fs).ran.Some?
    requires var fs1 := Apply(fs, step(fs).effects); !step(fs1).crashed && step(fs1).ran.Some?
    ensures var fs1 := Apply(fs, step(fs).effects);
      var t := Run(step, fs, 2);
      && t.sessions == [step(fs).ran.value, step(fs1).ran.value]
      && !t.crashed && t.fs == Apply(fs1, step(fs1).effects)
  {
    var fs1 := Apply(fs, step(fs).effects);
    var fs2 := Apply(fs1, step(fs1).effects);
    assert Run(step, fs2, 0) == Trace([], [], fs2, false);
  }
}
