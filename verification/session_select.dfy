/** `session_select.py`, the switch trigger: it normalises the requested
    target, persists it atomically to the next-session file, and only then
    asks the running session to end. */
module SessionSelect {
  import opened Wrappers
  import opened PyText
  import opened KvConfig
  import opened StateFile

  /** Where the intent goes when the configuration does not say. */
  const DefaultStatePath := "/var/lib/steamos_diy/next_session"

  /** The logout tools tried, in order, when leaving the desktop. */
  const LogoutTools: seq<string> := ["qdbus6", "qdbus"]
  const LogoutArgs: seq<string> := ["org.kde.Shutdown", "/Shutdown", "logout"]

  function Say(msg: string): Effect {
    Log(JournalTag, "[SELECT] " + msg)
  }

  /** The configuration `select` works with; `None` is a configuration file
      that does not exist, which leaves only the default state path. */
  function SelectConfig(ssot: Option<string>): map<string, string> {
    match ssot
    case None => map["next_session" := DefaultStatePath]
    case Some(text) => LoadSsot(text)
  }

  /** `conf.get('next_session', '/var/lib/steamos_diy/next_session')`. */
  function StatePath(conf: map<string, string>): string {
    if "next_session" in conf then conf["next_session"] else DefaultStatePath
  }

  /** Without a configuration file, or without the key in it, the intent
      goes to the default path. */
  lemma StatePathFallback(ssot: Option<string>)
    requires ssot.None? || "next_session" !in LoadSsot(ssot.value)
    ensures StatePath(SelectConfig(ssot)) == DefaultStatePath
  {
  }

  /** `argv[1].lower()`, with `plasma` an alias of `desktop`. */
  function Normalize(arg: string): (t: string)
    ensures t == "desktop" <==> Lower(arg) == "desktop" || Lower(arg) == "plasma"
    ensures t == "steam" <==> Lower(arg) == "steam"
  {
    var t := Lower(arg);
    if t == "plasma" then "desktop" else t
  }

  /** The two values the next-session file is meant to hold. */
  predicate IsTarget(t: string) {
    t == "desktop" || t == "steam"
  }

  /** What a run did, in order, and whether it ended in an uncaught error. */
  datatype Outcome = Outcome(effects: seq<Effect>, crashed: bool)

  /** The `for cmd in tools: try: run([cmd] + args); break except
      FileNotFoundError: continue` loop: the first tool that starts is the
      only one run; when none starts nothing happens. `launches(b)` says
      whether an executable `b` can be started. */
  function FirstLaunching(tools: seq<string>, args: seq<string>, launches: string -> bool): (es: seq<Effect>)
    ensures |es| <= 1
    ensures |es| == 1 <==> exists i :: 0 <= i < |tools| && launches(tools[i])
    ensures |es| == 1 ==> exists i ::
      && 0 <= i < |tools| && launches(tools[i])
      && es[0] == Spawn([tools[i]] + args)
      && forall j :: 0 <= j < i ==> !launches(tools[j])
    decreases |tools|
  {
    if |tools| == 0 then []
    else if launches(tools[0]) then [Spawn([tools[0]] + args)]
    else
      var es := FirstLaunching(tools[1..], args, launches);
      assert |es| == 1 ==> exists i :: 0 <= i < |tools| && launches(tools[i]) by {
        if |es| == 1 {
          var i :| 0 <= i < |tools[1..]| && launches(tools[1..][i]);
          assert launches(tools[i + 1]);
        }
      }
      assert |es| == 1 ==> exists i ::
        && 0 <= i < |tools| && launches(tools[i])
        && es[0] == Spawn([tools[i]] + args)
        && forall j :: 0 <= j < i ==> !launches(tools[j]) by {
        if |es| == 1 {
          var i :| && 0 <= i < |tools[1..]| && launches(tools[1..][i])
                   && es[0] == Spawn([tools[1..][i]] + args)
                   && forall j :: 0 <= j < i ==> !launches(tools[1..][j]);
          assert forall j :: 0 <= j < i + 1 ==> !launches(tools[j]) by {
            forall j | 0 <= j < i + 1 ensures !launches(tools[j]) {
              if j > 0 {
                assert tools[j] == tools[1..][j - 1];
              }
            }
          }
          assert tools[i + 1] == tools[1..][i];
        }
      }
      assert (exists i :: 0 <= i < |tools| && launches(tools[i])) ==> |es| == 1 by {
        if exists i :: 0 <= i < |tools| && launches(tools[i]) {
          var i :| 0 <= i < |tools| && launches(tools[i]);
          assert i > 0 && launches(tools[1..][i - 1]);
        }
      }
      es
  }

  /** The shutdown step for `target` (already validated). Leaving Steam runs
      `<bin_steam> -shutdown`, and a missing Steam binary raises out of the
      script; leaving the desktop tries `qdbus6`, then `qdbus`, and never
      fails. */
  function Shutdown(target: string, conf: map<string, string>, launches: string -> bool): (o: Outcome)
    requires IsTarget(target)
    ensures Harmless(o.effects) && |o.effects| >= 1
    ensures target == "desktop" ==>
      var bin := if "bin_steam" in conf then conf["bin_steam"] else "steam";
      && o.effects[0] == Say("Closing Steam...")
      && (o.crashed <==> !launches(bin))
      && (launches(bin) ==> o.effects[1..] == [Spawn([bin, "-shutdown"])])
      && (!launches(bin) ==> |o.effects| == 1)
    ensures target == "steam" ==>
      && !o.crashed
      && o.effects[0] == Say("KDE Logout...")
      && o.effects[1..] == FirstLaunching(LogoutTools, LogoutArgs, launches)
  {
    if target == "desktop" then
      var bin := if "bin_steam" in conf then conf["bin_steam"] else "steam";
      if launches(bin) then Outcome([Say("Closing Steam..."), Spawn([bin, "-shutdown"])], false)
      else Outcome([Say("Closing Steam...")], true)
    else
      var tried := FirstLaunching(LogoutTools, LogoutArgs, launches);
      Outcome([Say("KDE Logout...")] + tried, false)
  }

  /** `select()` with `args` the command-line arguments after the script
      name and `ssot` the configuration file's text (`None` when missing). */
  function Select(args: seq<string>, ssot: Option<string>, launches: string -> bool): (o: Outcome)
    ensures |args| == 0 ==> o == Outcome([], false)
    ensures |args| > 0 && !IsTarget(Normalize(args[0])) ==>
      o == Outcome([Say("Target '" + Normalize(args[0]) + "' not recognized.")], false)
    ensures |args| > 0 && IsTarget(Normalize(args[0])) ==>
      && |o.effects| >= 3
      && o.effects[0] == Say("Switching to: " + Upper(Normalize(args[0])))
      && o.effects[1..3] == AtomicWrite(StatePath(SelectConfig(ssot)), Normalize(args[0]))
      && Harmless(o.effects[3..])
      && (forall i :: 0 <= i < |o.effects| && o.effects[i].Spawn? ==> i >= 3)
      && o == Outcome(o.effects[..3] + Shutdown(Normalize(args[0]), SelectConfig(ssot), launches).effects,
                      Shutdown(Normalize(args[0]), SelectConfig(ssot), launches).crashed)
  {
    if |args| == 0 then Outcome([], false)
    else
      var conf := SelectConfig(ssot);
      var target := Normalize(args[0]);
      if !IsTarget(target) then Outcome([Say("Target '" + target + "' not recognized.")], false)
      else
        var head := [Say("Switching to: " + Upper(target))] + AtomicWrite(StatePath(conf), target);
        var shut := Shutdown(target, conf, launches);
        assert (head + shut.effects)[..3] == head;
        assert (head + shut.effects)[3..] == shut.effects;
        Outcome(head + shut.effects, shut.crashed)
  }

  /** Whatever the shutdown step does, crash included, the state file ends
      up holding the validated target. */
  lemma {:induction false} SelectPersistsTarget(fs: Fs, args: seq<string>, ssot: Option<string>, launches: string -> bool)
    requires |args| > 0 && IsTarget(Normalize(args[0]))
    ensures Reads(Apply(fs, Select(args, ssot, launches).effects), StatePath(SelectConfig(ssot)), Normalize(args[0]))
  {
    var es := Select(args, ssot, launches).effects;
    var path := StatePath(SelectConfig(ssot));
    var target := Normalize(args[0]);
    assert es == [es[0]] + es[1..3] + es[3..];
    ApplyConcat(fs, [es[0]] + es[1..3], es[3..]);
    ApplyConcat(fs, [es[0]], es[1..3]);
    assert Apply(fs, [es[0]]) == fs by {
      assert Harmless([es[0]]);
      ApplyHarmless(fs, [es[0]]);
    }
    AtomicWriteResult(fs, path, target);
    ApplyHarmless(Apply(fs, es[1..3]), es[3..]);
  }

  /** A rejected target changes no file and starts nothing. */
  lemma SelectRejectedIsInert(fs: Fs, args: seq<string>, ssot: Option<string>, launches: string -> bool)
    requires |args| == 0 || !IsTarget(Normalize(args[0]))
    ensures Harmless(Select(args, ssot, launches).effects)
    ensures !Select(args, ssot, launches).crashed
    ensures Apply(fs, Select(args, ssot, launches).effects) == fs
  {
    ApplyHarmless(fs, Select(args, ssot, launches).effects);
  }

  /** Leaving the desktop runs `qdbus6` when it exists, `qdbus` only when
      `qdbus6` does not, and nothing when neither does. */
  lemma LogoutToolChoice(launches: string -> bool)
    ensures launches("qdbus6") ==>
      FirstLaunching(LogoutTools, LogoutArgs, launches) == [Spawn(["qdbus6"] + LogoutArgs)]
    ensures !launches("qdbus6") && launches("qdbus") ==>
      FirstLaunching(LogoutTools, LogoutArgs, launches) == [Spawn(["qdbus"] + LogoutArgs)]
    ensures !launches("qdbus6") && !launches("qdbus") ==>
      FirstLaunching(LogoutTools, LogoutArgs, launches) == []
  {
    assert LogoutTools[1..] == ["qdbus"];
    assert LogoutTools[1..][1..] == [];
  }
}
