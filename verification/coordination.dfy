/** How the switch trigger and the session supervisor meet through the
    next-session file. The trigger writes the file and ends the running
    session. The supervisor, once that session's child exits, writes the
    other session's word over whatever the file then holds, and its next
    pass reads the file to pick the session to start. */
module Coordination {
  import opened Wrappers
  import opened PyText
  import opened KvConfig
  import opened StateFile
  import opened SessionSelect
  import opened SessionLaunch

  /** The session a validated target names. */
  function Requested(target: string): Session
    requires IsTarget(target)
  {
    if target == "steam" then Steam else Desktop
  }

  /** Both components read `next_session` from the same file with the same
      parser, so they agree on where the intent lives whenever the file
      names it. */
  lemma SharedStatePath(text: string, env: map<string, string>)
    requires Start(Some(text), env).Success?
    requires "next_session" in LoadSsot(text)
    ensures var conf := Start(Some(text), env).value.conf;
      "next_session" in conf && conf["next_session"] == StatePath(SelectConfig(Some(text)))
  {
  }

  /** After a switch to a valid target, a supervisor pass that starts once
      the switch has finished starts the session asked for, whatever
      happened in the shutdown step. A switch that lands while a pass is
      running is the case `SwitchDuringPass` covers. */
  lemma SwitchIsHonoured(fs: Fs, args: seq<string>, ssot: Option<string>, launches: string -> bool,
                         conf: map<string, string>, launched: string -> bool)
    requires |args| > 0 && IsTarget(Normalize(args[0]))
    requires "next_session" in conf && conf["next_session"] == StatePath(SelectConfig(ssot))
    ensures var fs' := Apply(fs, Select(args, ssot, launches).effects);
      && SessionFor(ReadTarget(conf, fs')) == Requested(Normalize(args[0]))
      && (Iterate(conf, fs', launched).ran.Some? ==>
            Iterate(conf, fs', launched).ran.value == Requested(Normalize(args[0])))
  {
    var t := Normalize(args[0]);
    SelectPersistsTarget(fs, args, ssot, launches);
    assert t == Token(Requested(t));
    TokenRoundTrip(Requested(t));
  }

  /** A switch that lands while a session runs, after the supervisor has
      started the child and before it writes the next session, is
      overwritten: the supervisor writes the other session's word whatever
      the file then holds. So the request takes effect only when it asks
      for the session that was not running; asking for the running session
      during its pass starts the other one next. */
  lemma SwitchDuringPass(conf: map<string, string>, fs: Fs, launched: string -> bool,
                         args: seq<string>, ssot: Option<string>, launches: string -> bool)
    requires !Iterate(conf, fs, launched).crashed
    requires |args| > 0 && IsTarget(Normalize(args[0]))
    ensures var st := Iterate(conf, fs, launched);
      var during := Apply(Apply(fs, st.effects[..3]), Select(args, ssot, launches).effects);
      var after := Apply(during, st.effects[3..]);
      && SessionFor(ReadTarget(conf, after)) == Other(st.ran.value)
      && (SessionFor(ReadTarget(conf, after)) == Requested(Normalize(args[0])) <==>
            Requested(Normalize(args[0])) != st.ran.value)
  {
    var st := Iterate(conf, fs, launched);
    var during := Apply(Apply(fs, st.effects[..3]), Select(args, ssot, launches).effects);
    var path := conf["next_session"];
    AtomicWriteResult(during, path, Token(Other(st.ran.value)));
    TokenRoundTrip(Other(st.ran.value));
  }

  /** Stopped after `n` steps, a run that logs, writes `path` atomically
      and then does nothing to files has left `path` as it was (`n <= 2`)
      or holding `content` (`n >= 3`). */
  lemma WritePrefix(fs: Fs, es: seq<Effect>, path: string, content: string, n: nat)
    requires |es| >= 3 && n <= |es|
    requires es[0].Log? && es[1..3] == AtomicWrite(path, content) && Harmless(es[3..])
    ensures var mid := Apply(fs, es[..n]);
      || (n <= 2 && (path in mid <==> path in fs) && (path in fs ==> mid[path] == fs[path]))
      || (n >= 3 && Reads(mid, path, content))
  {
    var w := AtomicWrite(path, content);
    assert Apply(fs, [es[0]]) == fs by {
      assert Harmless([es[0]]);
      ApplyHarmless(fs, [es[0]]);
    }
    if n <= 1 {
      assert Harmless(es[..n]);
      ApplyHarmless(fs, es[..n]);
    } else if n == 2 {
      assert es[..2] == [es[0]] + [w[0]];
      ApplyConcat(fs, [es[0]], [w[0]]);
      assert Apply(fs, [w[0]]) == ApplyEffect(fs, w[0]);
    } else {
      assert es[..n] == [es[0]] + w + es[3..n];
      ApplyConcat(fs, [es[0]] + w, es[3..n]);
      ApplyConcat(fs, [es[0]], w);
      AtomicWriteResult(fs, path, content);
      assert Harmless(es[3..n]) by {
        assert forall i :: 0 <= i < n - 3 ==> es[3..n][i] == es[3..][i];
      }
      ApplyHarmless(Apply(fs, w), es[3..n]);
    }
  }

  /** The files after the first `n` effects of a switch, against those
      before and after it. */
  lemma SwitchPrefix(fs: Fs, args: seq<string>, ssot: Option<string>, launches: string -> bool, n: nat)
    requires |args| > 0 && IsTarget(Normalize(args[0]))
    requires n <= |Select(args, ssot, launches).effects|
    ensures var es := Select(args, ssot, launches).effects;
      var path := StatePath(SelectConfig(ssot));
      var mid := Apply(fs, es[..n]);
      || (n <= 2 && (path in mid <==> path in fs) && (path in fs ==> mid[path] == fs[path]))
      || (n >= 3 && Reads(mid, path, Normalize(args[0])))
  {
    var es := Select(args, ssot, launches).effects;
    WritePrefix(fs, es, StatePath(SelectConfig(ssot)), Normalize(args[0]), n);
  }

  /** A supervisor pass that reads the file while a switch is under way
      starts either the session the file named before or the one asked
      for: never a session from a half-written file. */
  lemma ConcurrentReadIsOldOrNew(fs: Fs, args: seq<string>, ssot: Option<string>, launches: string -> bool,
                                 conf: map<string, string>, n: nat)
    requires |args| > 0 && IsTarget(Normalize(args[0]))
    requires "next_session" in conf && conf["next_session"] == StatePath(SelectConfig(ssot))
    requires n <= |Select(args, ssot, launches).effects|
    ensures var mid := Apply(fs, Select(args, ssot, launches).effects[..n]);
      || ReadTarget(conf, mid) == ReadTarget(conf, fs)
      || SessionFor(ReadTarget(conf, mid)) == Requested(Normalize(args[0]))
  {
    SwitchPrefix(fs, args, ssot, launches, n);
    var t := Normalize(args[0]);
    assert t == Token(Requested(t));
    TokenRoundTrip(Requested(t));
  }
}
